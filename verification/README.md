# Forwarder-Bot relay core in Dafny

The relay listens to a Discord channel. For every message posted by one configured
third-party bot, it builds a plain-text rendering and sends it to each WhatsApp group
listed in the configuration. This project models that handler and the configuration
values it reads:

- **Configuration** (`env.dfy`, module `Env`): the `WA_GROUP_NAMES` list is built by
  splitting the raw value on `,`, trimming each piece and dropping empty pieces. `PORT`
  falls back to 2208 when unset or empty. Environment values are `Option<string>`: an
  unset variable is `None`.
- **JavaScript string built-ins** (`js_string.dfy`, module `JsString`):
  - `String.prototype.trim`, over the ECMAScript WhiteSpace and LineTerminator code points;
  - `split` on a one-character separator;
  - `Array.prototype.join`;
  - first and last occurrence search.
- **Custom-emoji removal** (`custom_emoji.dfy`, module `CustomEmoji`):
  `value.replace(/<:[^>]+>/g, '')` is described as the regular expression engine's
  leftmost, non-overlapping scan. `Segment` splits the input into kept characters and
  removed `<:name>` tokens. `Strip` keeps the kept characters.
- **The `messageCreate` handler** (`forwarder.dfy`, module `Forwarder`):
  - The sender filter.
  - The body, in order of preference: the trimmed text; else the first embed's title,
    description and field lines; else `[attachment]`.
  - The three-line forwarded text: header, body, link.
  - The group loop: each configured name is looked up in the chat roster. If no group
    has that name, it is skipped and the loop continues; otherwise the text is sent to
    the first group with that name.
  - The handler is a pure function, `HandleMessage`, that returns one `Outcome` per
    configured name, either `Sent(chatId, text)` or `Skipped(name)`.
  - `OnMessageCreate` mirrors the JavaScript step by step: an appending body builder, a
    `for` loop over the fields, a `for` loop over the group names, and a linear search of
    the roster. It is proved equal to `HandleMessage`.

Behaviours of the code worth knowing:

- A rejected `sendMessage` is not caught.
- The embed description is appended whole, followed by a line break.
- Emoji removal is a single pass. It is not idempotent, and its output can still hold
  a token (`StripNotIdempotent`). It removes only tokens that start with `<:`, and it
  leaves `**` and other emphasis markers alone.

## Model

| member | source | states |
|---|---|---|
| JsString.Trim | src/bots/forwarderBot.js:50-51 | the trimmed text has no whitespace (ECMAScript WhiteSpace or LineTerminator) at either end and is no longer than the input |
| JsString.TrimStart | src/config/env.js:8 | dropping leading whitespace leaves a text that does not start with whitespace |
| JsString.TrimEnd | src/config/env.js:8 | dropping trailing whitespace leaves a text that does not end with whitespace |
| JsString.TrimStartCutsWhitespace | src/config/env.js:8 | the leading part keeps a suffix of the input, and everything cut before it is whitespace |
| JsString.TrimEndCutsWhitespace | src/config/env.js:8 | the trailing part keeps a prefix of the input, and everything cut after it is whitespace |
| JsString.TrimSpec | src/config/env.js:8 | `trim` removes exactly a whitespace prefix and a whitespace suffix, so the result is a slice of the input with clean edges and every character it keeps comes from the input |
| JsString.TrimUnique | src/config/env.js:8 | only one slice of a string has clean edges with nothing but whitespace cut around it, so that property determines `trim` completely |
| JsString.TrimIdempotent | src/bots/forwarderBot.js:78 | trimming an already trimmed text (the text body, re-trimmed when the message is assembled) changes nothing |
| JsString.TrimOfClean | src/config/env.js:8 | a text with no whitespace at either end is its own trim |
| JsString.TrimEmptyIff | src/bots/forwarderBot.js:50 | `content?.trim()` is falsy exactly when the content is made of whitespace only |
| JsString.Split | src/config/env.js:7 | `split(',')` yields one piece more than there are commas, and no piece holds a comma |
| JsString.JoinSplit | src/config/env.js:7 | the pieces of a split, joined with the separator, give the original text back |
| JsString.SplitPrefix | src/config/env.js:7 | a separator-free prefix ends up glued to the first piece of the split |
| JsString.SplitJoin | src/config/env.js:7 | splitting a join of separator-free parts gives back exactly the parts, empty ones included |
| JsString.Join | src/bots/forwarderBot.js:76-80 | `join` starts with the first part, and joining n parts gives at least the n - 1 separators' worth of characters |
| JsString.JoinOccurrences | src/bots/forwarderBot.js:76-80 | the separators `join` inserts are the only ones in the result when no part holds one: three single-line parts give exactly two line breaks |
| JsString.IndexOf | src/bots/forwarderBot.js:60 | the first position of a character, or none exactly when the character is absent; it finds the `>` that closes a custom-emoji match, and the first line break when the forwarded text is read back |
| JsString.LastIndexOf | src/bots/forwarderBot.js:76-80 | the last position of a character, or none exactly when the character is absent; used to read the forwarded text back |
| JsString.IndexOfAfter | src/bots/forwarderBot.js:76-80 | the first line break of `a + "\n" + b` is right after `a` when `a` has none |
| JsString.LastIndexOfBefore | src/bots/forwarderBot.js:76-80 | the last line break of `a + "\n" + b` is right before `b` when `b` has none |
| CustomEmoji.TokenAt | src/bots/forwarderBot.js:60 | a match found at the start of the text is a genuine match of `<:[^>]+>`: `<:`, at least one non-`>` character, then `>` |
| CustomEmoji.TokenAtComplete | src/bots/forwarderBot.js:60 | every match of `<:[^>]+>` that starts at the first character is the one `TokenAt` finds; since `[^>]` cannot cross a `>`, there is at most one |
| CustomEmoji.Strip | src/bots/forwarderBot.js:60 | removing the custom-emoji references never makes the value longer |
| CustomEmoji.KeptShorter | src/bots/forwarderBot.js:60 | the kept characters of a scan are never more than the characters it covers |
| CustomEmoji.Segment | src/bots/forwarderBot.js:60 | the scan has no more pieces than the value has characters, and every removed piece is `<:`, a non-empty name without `>`, then `>` |
| CustomEmoji.SegmentRenders | src/bots/forwarderBot.js:60 | the scan covers the whole value: its kept characters and removed tokens, put back in order, give the input |
| CustomEmoji.SegmentIsLeftmost | src/bots/forwarderBot.js:60 | the scan is leftmost and non-overlapping: every removed piece is a genuine match, and a character is kept only where no match starts |
| CustomEmoji.LeftmostScanUnique | src/bots/forwarderBot.js:60 | any leftmost non-overlapping scan of a text is the one `Segment` computes, so `Segment` is the global replace's only possible decomposition |
| CustomEmoji.SegmentLeadingToken | src/bots/forwarderBot.js:60 | a `<:name>` at the start is removed first and the scan resumes right after its `>` |
| CustomEmoji.SegmentLeadingKept | src/bots/forwarderBot.js:60 | a text not starting with `<:` keeps its first character |
| CustomEmoji.StripWithoutOpener | src/bots/forwarderBot.js:60 | a value without `<` comes out unchanged |
| CustomEmoji.StripLeadingToken | src/bots/forwarderBot.js:60 | removing a leading match leaves the removal of the rest |
| CustomEmoji.StripKeptThenToken | src/bots/forwarderBot.js:60 | a character kept before a match survives, and the match after it is removed |
| CustomEmoji.StripNotIdempotent | src/bots/forwarderBot.js:60 | `<` + `<:a>` + `:b>` becomes `<:b>`: the replace is a single pass, so its result can still hold a token and a second pass changes it again |
| CustomEmoji.StripOfScan | src/bots/forwarderBot.js:60 | for any leftmost non-overlapping scan of the value, the result is exactly the characters outside the removed matches, in order |
| Env.Truthy | src/config/env.js:5 | a value is truthy exactly when it is non-empty once an unset value is read as `''` |
| Env.OrEmpty | src/config/env.js:5 | `process.env.WA_GROUP_NAMES \|\| ''` is the value with an unset one read as `''`: the fallback changes nothing for a present empty value |
| Env.TrimNonEmpty | src/config/env.js:8-9 | trimming and dropping empty pieces gives at most one name per piece, each non-empty with clean edges |
| Env.TrimNonEmptyAppend | src/config/env.js:8-9 | the map and filter work piece by piece: the names of two runs of pieces are those of the first followed by those of the second, so order and duplicates are kept for every input |
| Env.TrimNonEmptySingle | src/config/env.js:8-9 | one piece gives its trim, or nothing when the trim is empty |
| Env.TrimNonEmptyAvoids | src/config/env.js:8-9 | a character in no piece is in no name |
| Env.TrimNonEmptyMembers | src/config/env.js:8-9 | a text is a name exactly when it is non-empty and some piece trims to it |
| Env.TrimNonEmptyOfClean | src/config/env.js:8-9 | a list of non-empty, already trimmed names passes the map and filter unchanged, order and duplicates kept |
| Env.ParseGroupNames | src/config/env.js:5-9 | every group name is non-empty, has clean edges and holds no comma; there are at most (number of commas + 1) names; an unset or empty variable gives no names |
| Env.ParseGroupNamesMembers | src/config/env.js:5-9 | a name is in the list exactly when it is non-empty and is the trim of one comma-separated piece of the raw value |
| Env.ParseJoinedGroupNames | src/config/env.js:5-9 | writing clean names joined by commas and parsing the result gives the same names back, in order and with duplicates |
| Env.PortOf | src/config/env.js:15 | the port is the default 2208 exactly when `PORT` is unset or empty; otherwise it is the environment text as is |
| Env.Load | src/config/env.js:11-16 | the exported token and bot id are the environment's, the group names are the parsed `WA_GROUP_NAMES` list (each non-empty and comma-free), and the port is `PORT \|\| 2208` |
| Forwarder.FieldLinesSingle | src/bots/forwarderBot.js:58-62 | one field renders as `\n<name>: <value without custom emoji, trimmed>` |
| Forwarder.FieldLinesAppend | src/bots/forwarderBot.js:58-62 | the field lines of two runs of fields are the lines of the first run followed by those of the second: the loop appends one line per field in field order |
| Forwarder.FieldNameKeepsEmoji | src/bots/forwarderBot.js:60-61 | a value that is one `<:name>` token renders as nothing, while the field name, token or not, is copied as is |
| Forwarder.FieldLine | src/bots/forwarderBot.js:60-61 | a field line starts with a line break and is at least the name plus the `\n` and `: ` marks long, and at most that plus the whole value |
| Forwarder.FieldLinesEmpty | src/bots/forwarderBot.js:58-62 | the field lines are empty exactly when the embed has no fields |
| Forwarder.EmbedBody | src/bots/forwarderBot.js:55-62 | the body built from an embed is empty exactly when it has no truthy title, no truthy description and no fields |
| Forwarder.BuildBody | src/bots/forwarderBot.js:47-65 | a body taken from the text is non-empty with clean edges; an empty body can come only from a first embed with nothing to show |
| Forwarder.TextWins | src/bots/forwarderBot.js:50-52 | when the trimmed content is non-empty, it is the body, whatever embeds the message has |
| Forwarder.OnlyFirstEmbed | src/bots/forwarderBot.js:54-55 | without text, the body comes from the first embed, and later embeds never change it |
| Forwarder.AttachmentOnly | src/bots/forwarderBot.js:63-65 | without text and without embeds, the body is `[attachment]` |
| Forwarder.TitleLayout | src/bots/forwarderBot.js:56 | the title appears as `**title**\n` at the start of the embed body exactly when it is present and non-empty; otherwise the body is as if there were no title |
| Forwarder.DescriptionLayout | src/bots/forwarderBot.js:57 | the description appears followed by `\n`, between the title part and the field lines, exactly when it is present and non-empty |
| Forwarder.Assemble | src/bots/forwarderBot.js:76-80 | the forwarded text is the header with the username, a line break, the body mark with the trimmed body, a line break, and the link mark with the message URL |
| Forwarder.AssembleRoundTrip | src/bots/forwarderBot.js:76-80 | username, trimmed body and URL can be read back from the forwarded text whenever the username and the URL are single lines; the body may span several lines |
| Forwarder.FindGroup | src/bots/forwarderBot.js:70 | `chats.find` returns the first chat that is a group with exactly that name, and none exactly when no chat qualifies |
| Forwarder.Dispatch | src/bots/forwarderBot.js:69-83 | the loop gives one outcome per configured name, in configured order, each computed from that name alone |
| Forwarder.DispatchOutcome | src/bots/forwarderBot.js:70-81 | a name is skipped exactly when no chat is a group of that name; otherwise the text goes to the first such group |
| Forwarder.DispatchAppend | src/bots/forwarderBot.js:71-74 | a skipped name does not stop the loop: the outcomes of a list of names are those of its parts, in order |
| Forwarder.Sends | src/bots/forwarderBot.js:81 | an outcome is among the sends exactly when it is a send of the loop |
| Forwarder.ResolvedNames | src/bots/forwarderBot.js:70-71 | a name is resolved exactly when it is configured and some group answers to it; there are at most as many as configured names |
| Forwarder.ResolvedNamesAppend | src/bots/forwarderBot.js:69-74 | resolution works name by name: the resolved names of two runs of names are those of the first followed by those of the second, so a name configured twice resolves twice |
| Forwarder.ResolvedNamesSingle | src/bots/forwarderBot.js:70-71 | one name is kept exactly when some group answers to it |
| Forwarder.SendsInConfiguredOrder | src/bots/forwarderBot.js:69-83 | the sends are exactly one per name that resolves, in configured order, and all carry the same text |
| Forwarder.HandleMessage | src/bots/forwarderBot.js:44-84 | a message from any other author produces nothing; a message from the configured bot produces one outcome per configured group name |
| Forwarder.IsFromBot | src/bots/forwarderBot.js:45 | an unset bot id matches no author, and a message passes only when its author id is the configured one |
| Forwarder.OtherAuthorsIgnored | src/bots/forwarderBot.js:45 | a message of another author, or any message while the bot id is unset, is never forwarded |
| Forwarder.HandlerSends | src/bots/forwarderBot.js:44-84 | a message from the configured bot is sent once per configured name that resolves, and every send carries the same header, trimmed-body and link lines |
| Forwarder.OnMessageCreate | src/bots/forwarderBot.js:44-84 | the step-by-step handler gives the outcomes of `HandleMessage` |
| Forwarder.ComposeBody | src/bots/forwarderBot.js:47-65 | building the body by appending to an empty string gives `BuildBody` |
| Forwarder.AppendFieldLines | src/bots/forwarderBot.js:58-62 | the loop over the fields appends exactly the field lines, in field order |
| Forwarder.ForwardToGroups | src/bots/forwarderBot.js:68-83 | the loop over the group names gives the outcomes of `Dispatch` with the assembled text |
| Forwarder.FindChat | src/bots/forwarderBot.js:70 | the linear search of the roster gives the position `FindGroup` describes |

## Left out

- Client setup and login (`src/bots/forwarderBot.js:9-41`): the Discord and WhatsApp clients, the QR code, headless browser options and ready events are I/O.
- Logging (`logger.info` / `logger.error`): it changes nothing the handler computes.
- `wa.getChats()`: the roster it returns is a parameter (`chats`) of the handler.
- `wa.sendMessage`: it is modelled as a recorded `Sent(chatId, text)` outcome.
  - Delivery, and what happens when a send rejects, are not modelled, because the rejection escapes the `async` handler uncaught.
  - The model does not claim that the loop continues after a failed send.
- `await` and concurrent handling of messages: each message is handled independently, as one pure computation.
- `Forwarder.HandleMessage` records a `Skipped(name)` outcome where the source only logs "not found" and continues. Nothing is sent for such a name.
- `Env.PortOf`: a set `PORT` is kept as its text. The source leaves it as a string too, so no number parsing is modelled.
- `Env.Load`: `DISCORD_TOKEN` is only passed through. It is used for login, which is I/O.
- `src/index.js` (the Express server, health routes, error handler and `app.listen`) is not part of this model.
- The `dotenv` loading of `.env` files is not part of this model. The environment is the `RawEnv` parameter.
- Chat identifiers: `g.id._serialized` is modelled as the chat's `id` text.
- Strings are sequences of code points.
  - `trim` and the regular expression are modelled on code points, whereas JavaScript works on UTF-16 code units.
  - The difference does not matter here: every character these operations inspect lies in the Basic Multilingual Plane, and no surrogate pair is split.
