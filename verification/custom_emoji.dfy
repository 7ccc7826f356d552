/**
 * `value.replace(/<:[^>]+>/g, '')`: global removal of custom-emoji references.
 *
 * A match is `<:`, one or more characters other than `>`, then `>`. The regular
 * expression engine scans left to right; where a match starts it removes it and
 * resumes right after it, elsewhere it keeps the character and moves on one
 * position. The scan is described here as a decomposition of the input into
 * kept characters and removed tokens (`Segment`); the stripped text is the kept
 * characters in order.
 */
module CustomEmoji {
  import opened Wrappers
  import opened JsString

  /** One step of the scan: a character that stays, or a removed `<:name>` token. */
  datatype Piece = Kept(c: char) | Token(name: string)

  /** `t` is exactly one match of `<:[^>]+>`. */
  predicate IsToken(t: string) {
    |t| >= 4 && t[0] == '<' && t[1] == ':' && t[|t| - 1] == '>' && '>' !in t[2..|t| - 1]
  }

  /** A name that can sit between `<:` and `>` in a match. */
  predicate IsTokenName(name: string) {
    |name| >= 1 && '>' !in name
  }

  /** The regular expression does not match at the start of `t`. */
  ghost predicate NoTokenPrefix(t: string) {
    forall n :: 0 <= n <= |t| ==> !IsToken(t[..n])
  }

  /** Length of the match that starts at the first character of `s`, if any. Because
      `[^>]` cannot cross a `>`, at most one prefix of `s` is a match. */
  function TokenAt(s: string): (r: Option<nat>)
    ensures r.Some? ==> 4 <= r.value <= |s| && IsToken(s[..r.value])
  {
    if |s| >= 2 && s[0] == '<' && s[1] == ':' then
      match IndexOf(s[2..], '>')
      case Some(j) =>
        if j >= 1 then
          assert s[..j + 3][2..j + 2] == s[2..][..j];
          Some(j + 3)
        else None
      case None => None
    else None
  }

  /** `TokenAt` finds every match that starts at the first character. */
  lemma TokenAtComplete(s: string)
    ensures forall n :: 0 <= n <= |s| && IsToken(s[..n]) ==> TokenAt(s) == Some(n)
  {
    if |s| >= 2 && s[0] == '<' && s[1] == ':' {
      match IndexOf(s[2..], '>')
      case Some(j) => TokenAtOnly(s, j);
      case None => TokenAtNone(s);
    } else {
      forall n | 0 <= n <= |s|
        ensures !IsToken(s[..n])
      {
        assert |s[..n]| >= 2 ==> s[..n][0] == s[0] && s[..n][1] == s[1];
      }
    }
  }

  /** When the first `>` after `<:` is at `j + 2`, the only candidate match ends there. */
  lemma TokenAtOnly(s: string, j: nat)
    requires |s| >= 2 && IndexOf(s[2..], '>') == Some(j)
    ensures forall n :: 0 <= n <= |s| && IsToken(s[..n]) ==> n == j + 3
  {
    var u := s[2..];
    forall k | 0 <= k < j
      ensures u[k] != '>'
    {
      assert u[..j][k] == u[k];
    }
    forall n | 0 <= n <= |s| && IsToken(s[..n])
      ensures n == j + 3
    {
      var t := s[..n];
      assert t[n - 1] == u[n - 3];
      forall k | 0 <= k < n - 3
        ensures u[k] != '>'
      {
        assert t[2..n - 1][k] == u[k];
      }
    }
  }

  /** With no `>` after `<:`, nothing matches. */
  lemma TokenAtNone(s: string)
    requires |s| >= 2 && '>' !in s[2..]
    ensures forall n :: 0 <= n <= |s| ==> !IsToken(s[..n])
  {
    forall n | 4 <= n <= |s|
      ensures !IsToken(s[..n])
    {
      assert s[..n][n - 1] == s[2..][n - 3];
    }
  }

  /** A match is `<:`, its name, and `>`. */
  lemma TokenShape(t: string)
    requires IsToken(t)
    ensures IsTokenName(t[2..|t| - 1])
    ensures t == "<:" + t[2..|t| - 1] + ">"
  {
  }

  /** `<:name>` is a match for every admissible name. */
  lemma TokenOfName(name: string)
    requires IsTokenName(name)
    ensures IsToken("<:" + name + ">")
    ensures ("<:" + name + ">")[2..|name| + 2] == name
  {
    var t := "<:" + name + ">";
    assert t[2..|t| - 1] == name;
  }

  /** The text a piece stands for in the input. */
  function PieceText(p: Piece): string {
    match p
    case Kept(c) => [c]
    case Token(name) => "<:" + name + ">"
  }

  /** The input a decomposition stands for. */
  function Render(ps: seq<Piece>): string {
    if |ps| == 0 then "" else PieceText(ps[0]) + Render(ps[1..])
  }

  /** The characters a decomposition keeps, in order. */
  function KeptChars(ps: seq<Piece>): string {
    if |ps| == 0 then ""
    else match ps[0]
      case Kept(c) => [c] + KeptChars(ps[1..])
      case Token(_) => KeptChars(ps[1..])
  }

  /** `ps` is what a leftmost, non-overlapping global scan produces: every token is a
      genuine match, and a character is kept only where no match starts. */
  ghost predicate IsLeftmostScan(ps: seq<Piece>)
    decreases |ps|
  {
    |ps| == 0 ||
    (&& (match ps[0]
         case Token(name) => IsTokenName(name)
         case Kept(_) => NoTokenPrefix(Render(ps)))
     && IsLeftmostScan(ps[1..]))
  }

  /** The scan of `s` by the regular expression engine. */
  function Segment(s: string): (ps: seq<Piece>)
    ensures |ps| <= |s|
    ensures forall i :: 0 <= i < |ps| && ps[i].Token? ==> IsTokenName(ps[i].name)
    decreases |s|
  {
    if |s| == 0 then []
    else match TokenAt(s)
      case Some(n) =>
        TokenShape(s[..n]);
        assert s[..n][2..n - 1] == s[2..n - 1];
        [Token(s[2..n - 1])] + Segment(s[n..])
      case None => [Kept(s[0])] + Segment(s[1..])
  }

  /** `value.replace(/<:[^>]+>/g, '')`. */
  function Strip(s: string): (r: string)
    ensures |r| <= |s|
  {
    SegmentRenders(s);
    KeptShorter(Segment(s));
    KeptChars(Segment(s))
  }

  lemma {:induction false} KeptShorter(ps: seq<Piece>)
    ensures |KeptChars(ps)| <= |Render(ps)|
  {
    if |ps| > 0 {
      KeptShorter(ps[1..]);
    }
  }

  /** The scan covers the whole input: putting the pieces back together gives `s`. */
  lemma {:induction false} SegmentRenders(s: string)
    ensures Render(Segment(s)) == s
    decreases |s|
  {
    if |s| > 0 {
      match TokenAt(s)
      case Some(n) =>
        var p := Token(s[2..n - 1]);
        assert Segment(s) == [p] + Segment(s[n..]);
        SegmentRenders(s[n..]);
        RenderCons(p, Segment(s[n..]));
        TokenText(s, n);
      case None =>
        var p := Kept(s[0]);
        assert Segment(s) == [p] + Segment(s[1..]);
        SegmentRenders(s[1..]);
        RenderCons(p, Segment(s[1..]));
        HeadAndTail(s);
    }
  }

  /** Rendering distributes over a leading piece. */
  lemma RenderCons(p: Piece, ps: seq<Piece>)
    ensures Render([p] + ps) == PieceText(p) + Render(ps)
  {
    assert ([p] + ps)[1..] == ps;
  }

  /** Keeping characters distributes over a leading piece. */
  lemma KeptCons(p: Piece, ps: seq<Piece>)
    ensures KeptChars([p] + ps) == (if p.Kept? then [p.c] else "") + KeptChars(ps)
  {
    assert ([p] + ps)[1..] == ps;
  }

  /** A match at the start of `s` is the text of the token piece for its name. */
  lemma TokenText(s: string, n: nat)
    requires 4 <= n <= |s| && IsToken(s[..n])
    ensures PieceText(Token(s[2..n - 1])) + s[n..] == s
  {
    TokenShape(s[..n]);
    assert s[..n][2..n - 1] == s[2..n - 1];
    assert s == s[..n] + s[n..];
  }

  /** The scan is leftmost and non-overlapping. */
  lemma {:induction false} SegmentIsLeftmost(s: string)
    ensures IsLeftmostScan(Segment(s))
    decreases |s|
  {
    if |s| > 0 {
      match TokenAt(s)
      case Some(n) =>
        var p := Token(s[2..n - 1]);
        assert Segment(s) == [p] + Segment(s[n..]);
        SegmentIsLeftmost(s[n..]);
        TokenShape(s[..n]);
        assert s[..n][2..n - 1] == s[2..n - 1];
        LeftmostCons(p, Segment(s[n..]));
      case None =>
        var p := Kept(s[0]);
        assert Segment(s) == [p] + Segment(s[1..]);
        SegmentIsLeftmost(s[1..]);
        SegmentRenders(s);
        TokenAtComplete(s);
        assert NoTokenPrefix(s);
        LeftmostCons(p, Segment(s[1..]));
    }
  }

  /** A scan with a leading piece is leftmost when the piece is allowed where it
      stands and the rest is leftmost. */
  lemma LeftmostCons(p: Piece, ps: seq<Piece>)
    ensures IsLeftmostScan([p] + ps) <==>
      && (match p
          case Token(name) => IsTokenName(name)
          case Kept(_) => NoTokenPrefix(Render([p] + ps)))
      && IsLeftmostScan(ps)
  {
    assert ([p] + ps)[1..] == ps;
  }

  /** Any leftmost scan of an input is the one `Segment` computes: the decomposition
      `Segment` describes is the only one the regular expression can produce. */
  lemma {:induction false} LeftmostScanUnique(ps: seq<Piece>)
    requires IsLeftmostScan(ps)
    ensures Segment(Render(ps)) == ps
    decreases |ps|
  {
    if |ps| > 0 {
      var rest := Render(ps[1..]);
      HeadAndTail(ps);
      LeftmostCons(ps[0], ps[1..]);
      RenderCons(ps[0], ps[1..]);
      LeftmostScanUnique(ps[1..]);
      match ps[0]
      case Token(name) =>
        SegmentLeadingToken(name, rest);
      case Kept(c) =>
        var s := [c] + rest;
        assert NoTokenPrefix(s);
        assert TokenAt(s).None?;
        assert s[1..] == rest;
        assert Segment(s) == [Kept(c)] + Segment(rest);
    }
  }

  /** The scan of `<:name>` followed by anything removes that match first. */
  lemma SegmentLeadingToken(name: string, rest: string)
    requires IsTokenName(name)
    ensures Segment("<:" + name + ">" + rest) == [Token(name)] + Segment(rest)
  {
    var t := "<:" + name + ">";
    var s := t + rest;
    var n := |t|;
    TokenOfName(name);
    assert s[..n] == t;
    TokenAtComplete(s);
    assert TokenAt(s) == Some(n);
    assert s[n..] == rest;
    assert s[2..n - 1] == t[2..n - 1];
  }

  /** Input without `<` is left as it is. */
  lemma {:induction false} StripWithoutOpener(s: string)
    requires '<' !in s
    ensures Strip(s) == s
    decreases |s|
  {
    if |s| > 0 {
      assert s[0] in s;
      assert forall c :: c in s[1..] ==> c in s;
      StripWithoutOpener(s[1..]);
      assert Segment(s) == [Kept(s[0])] + Segment(s[1..]);
      assert s == [s[0]] + s[1..];
    }
  }

  /** A match at the very start is removed and the scan resumes right after it. */
  lemma StripLeadingToken(name: string, rest: string)
    requires IsTokenName(name)
    ensures Strip("<:" + name + ">" + rest) == Strip(rest)
  {
    SegmentLeadingToken(name, rest);
  }

  /** Where the input does not start with `<:`, its first character is kept. */
  lemma SegmentLeadingKept(s: string)
    requires |s| > 0 && !(|s| >= 2 && s[0] == '<' && s[1] == ':')
    ensures Segment(s) == [Kept(s[0])] + Segment(s[1..])
  {
  }

  /** Removal is single-pass: the text around a removed match can join into a new
      match, so stripping is not idempotent and its result need not be token-free
      (`<<:a>:b>` becomes `<:b>`, which a second pass would remove). */
  lemma StripNotIdempotent(a: string, b: string)
    requires IsTokenName(a) && IsTokenName(b) && '<' !in b
    ensures Strip("<" + ("<:" + a + ">") + (":" + b + ">")) == "<:" + b + ">"
    ensures IsToken(Strip("<" + ("<:" + a + ">") + (":" + b + ">")))
    ensures Strip(Strip("<" + ("<:" + a + ">") + (":" + b + ">"))) == ""
  {
    var tok := "<:" + a + ">";
    var tail := ":" + b + ">";
    var out := "<:" + b + ">";
    assert "<" + tok + tail == ['<'] + (tok + tail);
    StripKeptThenToken('<', a, tail);
    assert '<' !in tail;
    StripWithoutOpener(tail);
    assert ['<'] + tail == out;
    TokenOfName(b);
    assert out + "" == out;
    StripLeadingToken(b, "");
    assert Strip("") == "";
  }

  lemma StripKeptThenToken(c: char, name: string, rest: string)
    requires IsTokenName(name)
    ensures Strip([c] + ("<:" + name + ">" + rest)) == [c] + Strip(rest)
  {
    var inner := "<:" + name + ">" + rest;
    var s := [c] + inner;
    assert s[1] == '<';
    SegmentLeadingKept(s);
    assert s[1..] == inner;
    SegmentLeadingToken(name, rest);
    var ps := [Token(name)] + Segment(rest);
    assert Segment(s) == [Kept(c)] + ps;
    KeptCons(Kept(c), ps);
    KeptCons(Token(name), Segment(rest));
  }

  /** Whatever leftmost scan describes `s`, stripping keeps exactly its kept
      characters, in order. */
  lemma StripOfScan(s: string, ps: seq<Piece>)
    requires IsLeftmostScan(ps) && Render(ps) == s
    ensures Strip(s) == KeptChars(ps)
  {
    LeftmostScanUnique(ps);
  }
}
