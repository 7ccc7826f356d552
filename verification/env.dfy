/**
 * The configuration module: the raw environment values (absent, or a string), the
 * `WA_GROUP_NAMES` list built from a comma-separated value, and the `PORT` default.
 */
module Env {
  import opened Wrappers
  import opened JsString

  /** The port `PORT || 2208` yields: the number 2208, or the environment string as is. */
  datatype Port = DefaultPort(number: nat) | PortText(text: string)

  const DefaultPortNumber: nat := 2208

  /** The raw environment values the module reads. */
  datatype RawEnv = RawEnv(
    discordToken: Option<string>,
    thirdPartyBotId: Option<string>,
    waGroupNames: Option<string>,
    port: Option<string>)

  /** The exported configuration. */
  datatype Config = Config(
    discordToken: Option<string>,
    thirdPartyBotId: Option<string>,
    waGroupNames: seq<string>,
    port: Port)

  /** JavaScript truthiness of an environment value: present and non-empty. */
  predicate Truthy(v: Option<string>): (r: bool)
    ensures r <==> v.GetOr("") != ""
  {
    v.Some? && v.value != ""
  }

  /** `raw || ''`: the fallback only matters for an unset value, since a present
      empty value already is `''`. */
  function OrEmpty(raw: Option<string>): (s: string)
    ensures s == raw.GetOr("")
  {
    if Truthy(raw) then raw.value else ""
  }

  /** `.map(name => name.trim()).filter(name => name.length > 0)` over the pieces. */
  function TrimNonEmpty(pieces: seq<string>): (names: seq<string>)
    ensures |names| <= |pieces|
    ensures forall k :: 0 <= k < |names| ==> names[k] != "" && NoEdgeWhitespace(names[k])
  {
    if |pieces| == 0 then []
    else
      var t := Trim(pieces[0]);
      var rest := TrimNonEmpty(pieces[1..]);
      if t == "" then rest else [t] + rest
  }

  /** The filter works piece by piece: the names of two runs of pieces are those of the
      first run followed by those of the second, in order and with duplicates. */
  lemma {:induction false} TrimNonEmptyAppend(a: seq<string>, b: seq<string>)
    ensures TrimNonEmpty(a + b) == TrimNonEmpty(a) + TrimNonEmpty(b)
  {
    if |a| > 0 {
      TrimNonEmptyAppend(a[1..], b);
      assert (a + b)[0] == a[0];
      assert (a + b)[1..] == a[1..] + b;
    } else {
      assert a + b == b;
    }
  }

  /** One piece gives its trim, or nothing when that is empty. */
  lemma TrimNonEmptySingle(p: string)
    ensures TrimNonEmpty([p]) == if Trim(p) == "" then [] else [Trim(p)]
  {
    assert [p][1..] == [];
  }

  /** A character no piece holds is in no name. */
  lemma {:induction false} TrimNonEmptyAvoids(pieces: seq<string>, c: char)
    requires forall j :: 0 <= j < |pieces| ==> c !in pieces[j]
    ensures forall k :: 0 <= k < |TrimNonEmpty(pieces)| ==> c !in TrimNonEmpty(pieces)[k]
  {
    if |pieces| > 0 {
      TrimNonEmptyAvoids(pieces[1..], c);
      TrimSpec(pieces[0]);
    }
  }

  /** The names are exactly the trimmed pieces that are not empty. */
  lemma {:induction false} TrimNonEmptyMembers(pieces: seq<string>, x: string)
    ensures x in TrimNonEmpty(pieces) <==> x != "" && exists p :: p in pieces && Trim(p) == x
  {
    if |pieces| > 0 {
      TrimNonEmptyMembers(pieces[1..], x);
      assert forall p :: p in pieces <==> p == pieces[0] || p in pieces[1..];
    }
  }

  /** The `WA_GROUP_NAMES` list: the raw value (or `''`) split on `,`, each piece
      trimmed, empty pieces dropped. */
  function ParseGroupNames(raw: Option<string>): (names: seq<string>)
    ensures forall k :: 0 <= k < |names| ==> names[k] != ""
    ensures forall k :: 0 <= k < |names| ==> NoEdgeWhitespace(names[k])
    ensures forall k :: 0 <= k < |names| ==> ',' !in names[k]
    ensures |names| <= Occurrences(OrEmpty(raw), ',') + 1
    ensures !Truthy(raw) ==> names == []
  {
    var pieces := Split(OrEmpty(raw), ',');
    TrimNonEmptyAvoids(pieces, ',');
    assert !Truthy(raw) ==> pieces == [""];
    TrimNonEmpty(pieces)
  }

  /** Every name the list holds comes, trimmed, from one comma-separated piece of the
      raw value, and every piece that does not trim to nothing is in the list. */
  lemma ParseGroupNamesMembers(raw: Option<string>, x: string)
    ensures x in ParseGroupNames(raw) <==>
      x != "" && exists p :: p in Split(OrEmpty(raw), ',') && Trim(p) == x
  {
    TrimNonEmptyMembers(Split(OrEmpty(raw), ','), x);
  }

  /** Writing clean names joined by commas and parsing the result gives the names back,
      in order and with duplicates. */
  lemma {:induction false} ParseJoinedGroupNames(names: seq<string>)
    requires forall k :: 0 <= k < |names| ==> names[k] != "" && NoEdgeWhitespace(names[k]) && ',' !in names[k]
    ensures ParseGroupNames(Some(Join(names, ','))) == names
  {
    if |names| == 0 {
      assert ParseGroupNames(Some("")) == [];
    } else {
      SplitJoin(names, ',');
      var raw := Join(names, ',');
      JoinOfNonEmpty(names);
      assert OrEmpty(Some(raw)) == raw;
      TrimNonEmptyOfClean(names);
    }
  }

  /** A join of at least one non-empty part is non-empty. */
  lemma JoinOfNonEmpty(parts: seq<string>)
    requires |parts| >= 1 && parts[0] != ""
    ensures Join(parts, ',') != ""
  {
    if |parts| > 1 {
      assert |Join(parts, ',')| >= |parts[0]|;
    }
  }

  /** Trimming and filtering leaves a list of clean names unchanged. */
  lemma {:induction false} TrimNonEmptyOfClean(names: seq<string>)
    requires forall k :: 0 <= k < |names| ==> names[k] != "" && NoEdgeWhitespace(names[k])
    ensures TrimNonEmpty(names) == names
  {
    if |names| > 0 {
      var tail := names[1..];
      assert forall k :: 0 <= k < |tail| ==> tail[k] == names[k + 1];
      TrimOfClean(names[0]);
      TrimNonEmptyOfClean(tail);
      assert TrimNonEmpty(names) == [names[0]] + TrimNonEmpty(tail);
      HeadAndTail(names);
    }
  }

  /** `process.env.PORT || 2208`. */
  function PortOf(raw: Option<string>): (p: Port)
    ensures p == DefaultPort(2208) <==> !Truthy(raw)
    ensures p.PortText? ==> Some(p.text) == raw && p.text != ""
  {
    if Truthy(raw) then PortText(raw.value) else DefaultPort(DefaultPortNumber)
  }

  /** The exported configuration object. */
  function Load(raw: RawEnv): (cfg: Config)
    ensures cfg.discordToken == raw.discordToken
    ensures cfg.thirdPartyBotId == raw.thirdPartyBotId
    ensures cfg.waGroupNames == ParseGroupNames(raw.waGroupNames)
    ensures cfg.port == PortOf(raw.port)
    ensures forall k :: 0 <= k < |cfg.waGroupNames| ==> cfg.waGroupNames[k] != "" && ',' !in cfg.waGroupNames[k]
    ensures !Truthy(raw.port) ==> cfg.port == DefaultPort(2208)
  {
    Config(raw.discordToken, raw.thirdPartyBotId, ParseGroupNames(raw.waGroupNames), PortOf(raw.port))
  }
}
