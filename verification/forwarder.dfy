/**
 * The `messageCreate` handler of the Discord-to-WhatsApp relay: the sender filter,
 * the body built from plain text, the first embed or an attachment placeholder,
 * the three-line WhatsApp text, and the loop that looks each configured group up
 * in the chat roster and sends the text to it.
 *
 * The roster returned by `getChats` is an input, and each iteration of the loop
 * yields an `Outcome`: the send it issues, or the name it skips.
 */
module Forwarder {
  import opened Wrappers
  import opened JsString
  import CustomEmoji
  import Env

  datatype Field = Field(name: string, value: string)

  datatype Embed = Embed(title: Option<string>, description: Option<string>, fields: seq<Field>)

  datatype Author = Author(id: string, username: string)

  /** A Discord message; `content` is `None` when the message carries no text at all. */
  datatype Message = Message(author: Author, content: Option<string>, embeds: seq<Embed>, url: string)

  /** A WhatsApp chat; `id` is the serialized chat id. */
  datatype Chat = Chat(id: string, name: string, isGroup: bool)

  /** What one iteration of the group loop does. */
  datatype Outcome = Sent(chatId: string, text: string) | Skipped(groupName: string)

  const HeaderPrefix: string := "\U{1F916} From Bot: "
  const BodyPrefix: string := "\U{1F4AC} "
  const LinkPrefix: string := "\U{1F517} "
  const AttachmentBody: string := "[attachment]"

  // ---------------------------------------------------------------------------
  // Sender filter and body builder
  // ---------------------------------------------------------------------------

  /** The handler goes on only for messages of the configured bot; an unset bot id
      (`undefined`) matches no author. */
  predicate IsFromBot(m: Message, botId: Option<string>): (r: bool)
    ensures botId.None? ==> !r
    ensures r ==> botId.value == m.author.id
  {
    botId == Some(m.author.id)
  }

  /** `msg.content?.trim()` is truthy. */
  predicate HasText(m: Message) {
    m.content.Some? && Trim(m.content.value) != ""
  }

  /** One field's line: its name verbatim and its value with custom emoji removed and trimmed. */
  function FieldLine(f: Field): (line: string)
    ensures 3 + |f.name| <= |line| <= 3 + |f.name| + |f.value|
    ensures line[0] == '\n'
  {
    "\n" + f.name + ": " + Trim(CustomEmoji.Strip(f.value))
  }

  /** The lines of the fields, one per field, in field order. */
  function FieldLineSeq(fs: seq<Field>): (lines: seq<string>)
    ensures |lines| == |fs|
    ensures forall i :: 0 <= i < |fs| ==> lines[i] == FieldLine(fs[i])
  {
    seq(|fs|, i requires 0 <= i < |fs| => FieldLine(fs[i]))
  }

  /** Strings appended one after the other, as `+=` does in a loop. */
  function Concat(lines: seq<string>): string {
    if |lines| == 0 then "" else Concat(lines[..|lines| - 1]) + lines[|lines| - 1]
  }

  /** What the `for` loop over the fields appends to the body. */
  function FieldLines(fs: seq<Field>): string {
    Concat(FieldLineSeq(fs))
  }

  function TitlePart(e: Embed): string {
    if Env.Truthy(e.title) then "**" + e.title.value + "**\n" else ""
  }

  function DescriptionPart(e: Embed): string {
    if Env.Truthy(e.description) then e.description.value + "\n" else ""
  }

  /** The body rendered from one embed. */
  function EmbedBody(e: Embed): (body: string)
    ensures body == "" <==> !Env.Truthy(e.title) && !Env.Truthy(e.description) && |e.fields| == 0
  {
    FieldLinesEmpty(e.fields);
    TitlePart(e) + DescriptionPart(e) + FieldLines(e.fields)
  }

  /** The field lines are empty exactly when there are no fields: every line starts
      with a line break. */
  lemma FieldLinesEmpty(fs: seq<Field>)
    ensures FieldLines(fs) == "" <==> |fs| == 0
  {
    var lines := FieldLineSeq(fs);
    if |fs| > 0 {
      assert |lines[|lines| - 1]| >= 3;
      assert |Concat(lines)| >= |lines[|lines| - 1]|;
    }
  }

  /** The body: trimmed text if any, else the first embed, else the attachment marker. */
  function BuildBody(m: Message): (body: string)
    ensures HasText(m) ==> body != "" && NoEdgeWhitespace(body)
    ensures body == "" ==> !HasText(m) && |m.embeds| > 0
  {
    if HasText(m) then Trim(m.content.value)
    else if |m.embeds| > 0 then EmbedBody(m.embeds[0])
    else AttachmentBody
  }

  /** Appending two runs of strings appends their concatenations. */
  lemma {:induction false} ConcatAppend(a: seq<string>, b: seq<string>)
    ensures Concat(a + b) == Concat(a) + Concat(b)
    decreases |b|
  {
    if |b| == 0 {
      assert a + b == a;
    } else {
      var b' := b[..|b| - 1];
      ConcatAppend(a, b');
      DropLastOfAppend(a, b);
    }
  }

  lemma DropLastOfAppend<T>(a: seq<T>, b: seq<T>)
    requires |b| > 0
    ensures (a + b)[..|a + b| - 1] == a + b[..|b| - 1]
    ensures (a + b)[|a + b| - 1] == b[|b| - 1]
  {
  }

  /** Field lines of consecutive field lists concatenate: every field contributes its
      own line, in field order, duplicates included. */
  lemma FieldLinesAppend(a: seq<Field>, b: seq<Field>)
    ensures FieldLines(a + b) == FieldLines(a) + FieldLines(b)
  {
    var la, lb, lab := FieldLineSeq(a), FieldLineSeq(b), FieldLineSeq(a + b);
    forall i | 0 <= i < |lab|
      ensures lab[i] == (la + lb)[i]
    {
      if i < |a| {
        assert (a + b)[i] == a[i];
      } else {
        assert (a + b)[i] == b[i - |a|];
      }
    }
    assert lab == la + lb;
    ConcatAppend(la, lb);
  }

  /** A single field renders as `\n<name>: <value without custom emoji, trimmed>`. */
  lemma FieldLinesSingle(f: Field)
    ensures FieldLines([f]) == "\n" + f.name + ": " + Trim(CustomEmoji.Strip(f.value))
  {
    var lines := FieldLineSeq([f]);
    assert lines == [FieldLine(f)];
    assert lines[..0] == [];
    assert Concat(lines) == Concat([]) + FieldLine(f);
    assert Concat([]) + FieldLine(f) == FieldLine(f);
  }

  /** Non-empty trimmed text is the body, whatever the embeds. */
  lemma TextWins(m: Message, embeds: seq<Embed>)
    requires HasText(m)
    ensures BuildBody(m) == Trim(m.content.value)
    ensures BuildBody(m.(embeds := embeds)) == BuildBody(m)
  {
  }

  /** Without text, the body comes from the first embed only: the embeds after it never
      change it. */
  lemma OnlyFirstEmbed(m: Message, later: seq<Embed>)
    requires !HasText(m) && |m.embeds| > 0
    ensures BuildBody(m) == EmbedBody(m.embeds[0])
    ensures BuildBody(m.(embeds := [m.embeds[0]] + later)) == BuildBody(m)
  {
  }

  /** Without text and without embeds, the body is the attachment marker. */
  lemma AttachmentOnly(m: Message)
    requires !HasText(m) && |m.embeds| == 0
    ensures BuildBody(m) == "[attachment]"
  {
  }

  /** The title shows as `**title**\n` at the start of the embed body exactly when it is
      present and non-empty; otherwise the body is what it would be without a title. */
  lemma TitleLayout(e: Embed)
    ensures Env.Truthy(e.title) ==> EmbedBody(e) == "**" + e.title.value + "**\n" + EmbedBody(e.(title := None))
    ensures !Env.Truthy(e.title) ==> EmbedBody(e) == EmbedBody(e.(title := None))
  {
  }

  /** The description shows followed by `\n`, right before the field lines, exactly
      when it is present and non-empty. */
  lemma DescriptionLayout(e: Embed)
    ensures Env.Truthy(e.description) ==>
      EmbedBody(e) == TitlePart(e) + e.description.value + "\n" + FieldLines(e.fields)
    ensures !Env.Truthy(e.description) ==> EmbedBody(e) == EmbedBody(e.(description := None))
  {
  }

  /** Only field values lose their custom emoji: a value that is one token renders as
      nothing, while the name, token or not, is copied as is. */
  lemma FieldNameKeepsEmoji(name: string, x: string)
    requires CustomEmoji.IsTokenName(x)
    ensures FieldLines([Field(name, "<:" + x + ">")]) == "\n" + name + ": "
  {
    var value := "<:" + x + ">";
    FieldLinesSingle(Field(name, value));
    assert value + "" == value;
    CustomEmoji.StripLeadingToken(x, "");
    assert CustomEmoji.Strip("") == "";
    assert Trim("") == "";
  }

  // ---------------------------------------------------------------------------
  // The forwarded text
  // ---------------------------------------------------------------------------

  /** `[header, '💬 ' + body.trim(), '🔗 ' + url].join('\n')`. */
  function Assemble(username: string, body: string, url: string): (text: string)
    ensures text == HeaderPrefix + username + "\n" + BodyPrefix + Trim(body) + "\n" + LinkPrefix + url
  {
    var lines := [HeaderPrefix + username, BodyPrefix + Trim(body), LinkPrefix + url];
    assert lines[1..][1..] == lines[2..] == [LinkPrefix + url];
    assert Join(lines[1..], '\n') == BodyPrefix + Trim(body) + "\n" + (LinkPrefix + url);
    assert Join(lines, '\n') == HeaderPrefix + username + "\n" + Join(lines[1..], '\n');
    Join(lines, '\n')
  }

  /** `s` without the prefix `p`, if it starts with `p`. */
  function DropPrefix(p: string, s: string): Option<string> {
    if |p| <= |s| && s[..|p|] == p then Some(s[|p|..]) else None
  }

  /** The text before and after the first line break. */
  function SplitFirstLine(s: string): Option<(string, string)> {
    match IndexOf(s, '\n')
    case None => None
    case Some(i) => Some((s[..i], s[i + 1..]))
  }

  /** The text before and after the last line break. */
  function SplitLastLine(s: string): Option<(string, string)> {
    match LastIndexOf(s, '\n')
    case None => None
    case Some(i) => Some((s[..i], s[i + 1..]))
  }

  /** Reads the three lines of a forwarded text back. */
  function Disassemble(text: string): Option<(string, string, string)> {
    match DropPrefix(HeaderPrefix, text)
    case None => None
    case Some(afterHeader) =>
      match SplitFirstLine(afterHeader)
      case None => None
      case Some((username, rest)) =>
        match SplitLastLine(rest)
        case None => None
        case Some((bodyLine, linkLine)) =>
          match (DropPrefix(BodyPrefix, bodyLine), DropPrefix(LinkPrefix, linkLine))
          case (Some(body), Some(url)) => Some((username, body, url))
          case _ => None
  }

  /** The forwarded text is unambiguous: username, trimmed body and link can be read
      back from it whenever the username and the link are single lines (the body may
      span several lines). */
  lemma AssembleRoundTrip(username: string, body: string, url: string)
    requires '\n' !in username && '\n' !in url
    ensures Disassemble(Assemble(username, body, url)) == Some((username, Trim(body), url))
  {
    var b := Trim(body);
    var bodyLine := BodyPrefix + b;
    var linkLine := LinkPrefix + url;
    var rest := bodyLine + ['\n'] + linkLine;
    var afterHeader := username + ['\n'] + rest;
    assert Assemble(username, body, url) == HeaderPrefix + afterHeader;
    DropPrefixOf(HeaderPrefix, afterHeader);
    FirstLineOf(username, rest);
    assert '\n' !in linkLine;
    LastLineOf(bodyLine, linkLine);
    DropPrefixOf(BodyPrefix, b);
    DropPrefixOf(LinkPrefix, url);
  }

  lemma DropPrefixOf(p: string, x: string)
    ensures DropPrefix(p, p + x) == Some(x)
  {
    assert (p + x)[..|p|] == p && (p + x)[|p|..] == x;
  }

  lemma FirstLineOf(a: string, b: string)
    requires '\n' !in a
    ensures SplitFirstLine(a + ['\n'] + b) == Some((a, b))
  {
    IndexOfAfter(a, '\n', b);
    var s := a + ['\n'] + b;
    assert s[..|a|] == a && s[|a| + 1..] == b;
  }

  lemma LastLineOf(a: string, b: string)
    requires '\n' !in b
    ensures SplitLastLine(a + ['\n'] + b) == Some((a, b))
  {
    LastIndexOfBefore(a, '\n', b);
    var s := a + ['\n'] + b;
    assert s[..|a|] == a && s[|a| + 1..] == b;
  }

  // ---------------------------------------------------------------------------
  // Group lookup and the send loop
  // ---------------------------------------------------------------------------

  predicate IsNamedGroup(c: Chat, name: string) {
    c.isGroup && c.name == name
  }

  /** `chats.find(c => c.isGroup && c.name === name)`, as a position. */
  function FindGroup(chats: seq<Chat>, name: string): (r: Option<nat>)
    ensures r.Some? ==> r.value < |chats| && IsNamedGroup(chats[r.value], name)
    ensures r.Some? ==> forall j :: 0 <= j < r.value ==> !IsNamedGroup(chats[j], name)
    ensures r.None? <==> forall j :: 0 <= j < |chats| ==> !IsNamedGroup(chats[j], name)
  {
    if |chats| == 0 then None
    else if IsNamedGroup(chats[0], name) then Some(0)
    else match FindGroup(chats[1..], name)
      case None => None
      case Some(k) => Some(k + 1)
  }

  /** One iteration of the group loop. */
  function OutcomeFor(name: string, chats: seq<Chat>, text: string): Outcome {
    match FindGroup(chats, name)
    case Some(k) => Sent(chats[k].id, text)
    case None => Skipped(name)
  }

  /** The group loop: one outcome per configured name, in configured order. */
  function Dispatch(names: seq<string>, chats: seq<Chat>, text: string): (outcomes: seq<Outcome>)
    ensures |outcomes| == |names|
    ensures forall i :: 0 <= i < |names| ==> outcomes[i] == OutcomeFor(names[i], chats, text)
  {
    if |names| == 0 then [] else [OutcomeFor(names[0], chats, text)] + Dispatch(names[1..], chats, text)
  }

  /** What each iteration does: a name with no group of that exact name is skipped; any
      other name sends the text to the first group of that name in the roster. */
  lemma DispatchOutcome(names: seq<string>, chats: seq<Chat>, text: string, i: nat)
    requires i < |names|
    ensures Dispatch(names, chats, text)[i].Skipped? <==>
      forall j :: 0 <= j < |chats| ==> !IsNamedGroup(chats[j], names[i])
    ensures Dispatch(names, chats, text)[i].Skipped? ==>
      Dispatch(names, chats, text)[i].groupName == names[i]
    ensures Dispatch(names, chats, text)[i].Sent? ==>
      && Dispatch(names, chats, text)[i].text == text
      && exists k :: 0 <= k < |chats| && IsNamedGroup(chats[k], names[i])
           && Dispatch(names, chats, text)[i].chatId == chats[k].id
           && forall j :: 0 <= j < k ==> !IsNamedGroup(chats[j], names[i])
  {
    var o := Dispatch(names, chats, text)[i];
    match FindGroup(chats, names[i])
    case Some(k) =>
      assert o == Sent(chats[k].id, text);
    case None =>
  }

  /** A skipped name does not stop the loop: the outcomes of a list are those of its
      parts, in order. */
  lemma {:induction false} DispatchAppend(a: seq<string>, b: seq<string>, chats: seq<Chat>, text: string)
    ensures Dispatch(a + b, chats, text) == Dispatch(a, chats, text) + Dispatch(b, chats, text)
  {
    if |a| > 0 {
      DispatchAppend(a[1..], b, chats, text);
      assert (a + b)[1..] == a[1..] + b;
    } else {
      assert a + b == b;
    }
  }

  /** The sends among the outcomes, in order. */
  function Sends(outcomes: seq<Outcome>): (sends: seq<Outcome>)
    ensures forall i :: 0 <= i < |sends| ==> sends[i].Sent?
    ensures forall o :: o in sends <==> o in outcomes && o.Sent?
  {
    if |outcomes| == 0 then []
    else (if outcomes[0].Sent? then [outcomes[0]] else []) + Sends(outcomes[1..])
  }

  /** The configured names that some group answers to, in configured order. */
  function ResolvedNames(names: seq<string>, chats: seq<Chat>): (resolved: seq<string>)
    ensures |resolved| <= |names|
    ensures forall x :: x in resolved <==> x in names && FindGroup(chats, x).Some?
  {
    if |names| == 0 then []
    else (if FindGroup(chats, names[0]).Some? then [names[0]] else []) + ResolvedNames(names[1..], chats)
  }

  /** Resolution works name by name: the resolved names of two runs of names are those
      of the first run followed by those of the second, in order and with duplicates. */
  lemma {:induction false} ResolvedNamesAppend(a: seq<string>, b: seq<string>, chats: seq<Chat>)
    ensures ResolvedNames(a + b, chats) == ResolvedNames(a, chats) + ResolvedNames(b, chats)
  {
    if |a| > 0 {
      ResolvedNamesAppend(a[1..], b, chats);
      assert (a + b)[0] == a[0];
      assert (a + b)[1..] == a[1..] + b;
    } else {
      assert a + b == b;
    }
  }

  /** One name is kept exactly when some group answers to it. */
  lemma ResolvedNamesSingle(name: string, chats: seq<Chat>)
    ensures ResolvedNames([name], chats) == if FindGroup(chats, name).Some? then [name] else []
  {
    assert [name][1..] == [];
  }

  /** The sends are one per resolved name, in configured order, each with the same text. */
  lemma {:induction false} SendsInConfiguredOrder(names: seq<string>, chats: seq<Chat>, text: string)
    ensures Sends(Dispatch(names, chats, text)) == Dispatch(ResolvedNames(names, chats), chats, text)
    ensures |Sends(Dispatch(names, chats, text))| == |ResolvedNames(names, chats)|
    ensures forall i :: 0 <= i < |Sends(Dispatch(names, chats, text))| ==>
      Sends(Dispatch(names, chats, text))[i].text == text
  {
    if |names| > 0 {
      var outs := Dispatch(names, chats, text);
      SendsInConfiguredOrder(names[1..], chats, text);
      assert outs[1..] == Dispatch(names[1..], chats, text);
      var first := if FindGroup(chats, names[0]).Some? then [names[0]] else [];
      DispatchAppend(first, ResolvedNames(names[1..], chats), chats, text);
    }
    var sends := Sends(Dispatch(names, chats, text));
    forall i | 0 <= i < |sends|
      ensures sends[i].text == text
    {
      var rs := ResolvedNames(names, chats);
      assert sends[i] == OutcomeFor(rs[i], chats, text);
      assert rs[i] in rs;
    }
  }

  // ---------------------------------------------------------------------------
  // The whole handler
  // ---------------------------------------------------------------------------

  /** The text every send of the handler carries. */
  function MessageText(m: Message): string {
    Assemble(m.author.username, BuildBody(m), m.url)
  }

  /** The `messageCreate` handler: nothing for other authors, otherwise one outcome per
      configured group name. */
  function HandleMessage(m: Message, cfg: Env.Config, chats: seq<Chat>): (outcomes: seq<Outcome>)
    ensures !IsFromBot(m, cfg.thirdPartyBotId) ==> outcomes == []
    ensures IsFromBot(m, cfg.thirdPartyBotId) ==> |outcomes| == |cfg.waGroupNames|
  {
    if IsFromBot(m, cfg.thirdPartyBotId) then Dispatch(cfg.waGroupNames, chats, MessageText(m)) else []
  }

  /** A message of any other author, or any message at all while the bot id is unset,
      produces no sends. */
  lemma OtherAuthorsIgnored(m: Message, cfg: Env.Config, chats: seq<Chat>)
    requires cfg.thirdPartyBotId != Some(m.author.id)
    ensures Sends(HandleMessage(m, cfg, chats)) == []
  {
  }

  /** Every send of the handler carries the same three-line text, and there is one send
      per configured name that resolves, in configured order. */
  lemma HandlerSends(m: Message, cfg: Env.Config, chats: seq<Chat>)
    requires IsFromBot(m, cfg.thirdPartyBotId)
    ensures |Sends(HandleMessage(m, cfg, chats))| == |ResolvedNames(cfg.waGroupNames, chats)|
    ensures forall i :: 0 <= i < |Sends(HandleMessage(m, cfg, chats))| ==>
      Sends(HandleMessage(m, cfg, chats))[i].text ==
        HeaderPrefix + m.author.username + "\n" + BodyPrefix + Trim(BuildBody(m)) + "\n" + LinkPrefix + m.url
  {
    SendsInConfiguredOrder(cfg.waGroupNames, chats, MessageText(m));
  }

  /** The handler as it runs: the sender check, the body, then the group loop. */
  method OnMessageCreate(m: Message, cfg: Env.Config, chats: seq<Chat>) returns (outcomes: seq<Outcome>)
    ensures outcomes == HandleMessage(m, cfg, chats)
  {
    if cfg.thirdPartyBotId != Some(m.author.id) {
      return [];
    }
    var body := ComposeBody(m);
    outcomes := ForwardToGroups(cfg.waGroupNames, chats, m.author.username, body, m.url);
  }

  /** The body as the handler builds it, appending to a string that starts empty. */
  method ComposeBody(m: Message) returns (body: string)
    ensures body == BuildBody(m)
  {
    body := "";
    if m.content.Some? && Trim(m.content.value) != "" {
      body := Trim(m.content.value);
    } else if |m.embeds| > 0 {
      var e := m.embeds[0];
      if Env.Truthy(e.title) {
        body := body + "**" + e.title.value + "**\n";
      }
      assert body == TitlePart(e);
      if Env.Truthy(e.description) {
        body := body + e.description.value + "\n";
        AppendAssoc(TitlePart(e), e.description.value, "\n");
      }
      assert body == TitlePart(e) + DescriptionPart(e);
      body := AppendFieldLines(body, e.fields);
    } else {
      body := AttachmentBody;
    }
  }

  /** The `for (const f of e.fields)` loop: one line per field appended to `start`. */
  method AppendFieldLines(start: string, fields: seq<Field>) returns (body: string)
    ensures body == start + FieldLines(fields)
  {
    body := start;
    for i := 0 to |fields|
      invariant body == start + FieldLines(fields[..i])
    {
      var f := fields[i];
      var val := Trim(CustomEmoji.Strip(f.value));
      var line := "\n" + f.name + ": " + val;
      TakeOneMore(fields, i);
      FieldLinesAppend(fields[..i], [f]);
      FieldLinesSingle(f);
      AppendAssoc(start, FieldLines(fields[..i]), line);
      body := body + line;
    }
    assert fields[..|fields|] == fields;
  }

  lemma AppendAssoc(a: string, b: string, c: string)
    ensures (a + b) + c == a + (b + c)
  {
  }

  lemma TakeOneMore<T>(s: seq<T>, i: nat)
    requires i < |s|
    ensures s[..i + 1] == s[..i] + [s[i]]
  {
  }

  /** The group loop: look each name up in the roster, skip it when no group has that
      name, otherwise send the three-line text to the group found. */
  method ForwardToGroups(names: seq<string>, chats: seq<Chat>, username: string, body: string, url: string)
    returns (outcomes: seq<Outcome>)
    ensures outcomes == Dispatch(names, chats, Assemble(username, body, url))
  {
    ghost var message := Assemble(username, body, url);
    outcomes := [];
    for n := 0 to |names|
      invariant outcomes == Dispatch(names[..n], chats, message)
    {
      var gName := names[n];
      DispatchAppend(names[..n], [gName], chats, message);
      TakeOneMore(names, n);
      assert Dispatch([gName], chats, message) == [OutcomeFor(gName, chats, message)];
      var g := FindChat(chats, gName);
      if g.None? {
        outcomes := outcomes + [Skipped(gName)];
      } else {
        var text := Join([HeaderPrefix + username, BodyPrefix + Trim(body), LinkPrefix + url], '\n');
        assert text == message;
        outcomes := outcomes + [Sent(chats[g.value].id, text)];
      }
    }
    assert names[..|names|] == names;
  }

  /** `chats.find(...)`: a scan for the first group with the exact name. */
  method FindChat(chats: seq<Chat>, name: string) returns (r: Option<nat>)
    ensures r == FindGroup(chats, name)
  {
    var i := 0;
    while i < |chats|
      invariant 0 <= i <= |chats|
      invariant forall j :: 0 <= j < i ==> !IsNamedGroup(chats[j], name)
    {
      if chats[i].isGroup && chats[i].name == name {
        return Some(i);
      }
      i := i + 1;
    }
    return None;
  }
}
