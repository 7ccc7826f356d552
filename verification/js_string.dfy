/**
 * The JavaScript string built-ins the relay relies on: `String.prototype.trim`,
 * `String.prototype.split` with a one-character separator and `Array.prototype.join`,
 * plus a first/last occurrence search: the first serves the regular expression's
 * search for the `>` that closes a custom-emoji match, both serve reading a forwarded
 * text back. Strings are sequences of Unicode code points.
 */
module JsString {
  import opened Wrappers

  /** The code points ECMAScript's `trim` removes: WhiteSpace (TAB, VT, FF, SPACE,
      NO-BREAK SPACE, ZERO WIDTH NO-BREAK SPACE and category Zs) and LineTerminator
      (LF, CR, LINE SEPARATOR, PARAGRAPH SEPARATOR). */
  predicate IsWhitespace(c: char) {
    || c == '\t' || c == '\n' || c == '\U{000B}' || c == '\U{000C}' || c == '\r' || c == ' '
    || c == '\U{00A0}' || c == '\U{1680}' || ('\U{2000}' <= c <= '\U{200A}')
    || c == '\U{2028}' || c == '\U{2029}' || c == '\U{202F}' || c == '\U{205F}'
    || c == '\U{3000}' || c == '\U{FEFF}'
  }

  ghost predicate AllWhitespace(s: string) {
    forall i :: 0 <= i < |s| ==> IsWhitespace(s[i])
  }

  /** Neither the first nor the last character is whitespace. */
  predicate NoEdgeWhitespace(s: string) {
    |s| == 0 || (!IsWhitespace(s[0]) && !IsWhitespace(s[|s| - 1]))
  }

  /** `r` is what remains of `s` after cutting a whitespace prefix and a whitespace
      suffix so that no whitespace is left at either end. */
  ghost predicate IsTrimOf(r: string, s: string) {
    && NoEdgeWhitespace(r)
    && exists i, j :: 0 <= i <= j <= |s| && r == s[i..j] && AllWhitespace(s[..i]) && AllWhitespace(s[j..])
  }

  /** `s` without its leading whitespace. */
  function TrimStart(s: string): (r: string)
    ensures |r| <= |s|
    ensures |r| > 0 ==> !IsWhitespace(r[0])
  {
    if |s| > 0 && IsWhitespace(s[0]) then TrimStart(s[1..]) else s
  }

  /** `s` without its trailing whitespace. */
  function TrimEnd(s: string): (r: string)
    ensures |r| <= |s|
    ensures |r| > 0 ==> !IsWhitespace(r[|r| - 1])
  {
    if |s| > 0 && IsWhitespace(s[|s| - 1]) then TrimEnd(s[..|s| - 1]) else s
  }

  /** `String.prototype.trim`. */
  function Trim(s: string): (r: string)
    ensures NoEdgeWhitespace(r)
    ensures |r| <= |s|
  {
    var t := TrimStart(s);
    TrimEndCutsWhitespace(t);
    TrimEnd(t)
  }

  /** `TrimStart` keeps a suffix and what it cuts is whitespace. */
  lemma {:induction false} TrimStartCutsWhitespace(s: string)
    ensures TrimStart(s) == s[|s| - |TrimStart(s)|..]
    ensures AllWhitespace(s[..|s| - |TrimStart(s)|])
  {
    if |s| > 0 && IsWhitespace(s[0]) {
      TrimStartCutsWhitespace(s[1..]);
      var k := |s| - |TrimStart(s)|;
      assert s[..k] == [s[0]] + s[1..][..k - 1];
    }
  }

  /** `TrimEnd` keeps a prefix and what it cuts is whitespace. */
  lemma {:induction false} TrimEndCutsWhitespace(s: string)
    ensures TrimEnd(s) == s[..|TrimEnd(s)|]
    ensures AllWhitespace(s[|TrimEnd(s)|..])
  {
    if |s| > 0 && IsWhitespace(s[|s| - 1]) {
      var p := s[..|s| - 1];
      TrimEndCutsWhitespace(p);
      var k := |TrimEnd(s)|;
      assert s[k..] == p[k..] + [s[|s| - 1]];
    }
  }

  /** `Trim` cuts exactly a whitespace prefix and a whitespace suffix, so every
      character it keeps comes from the input. */
  lemma TrimSpec(s: string)
    ensures IsTrimOf(Trim(s), s)
    ensures forall c :: c in Trim(s) ==> c in s
  {
    var t := TrimStart(s);
    var r := TrimEnd(t);
    var i := |s| - |t|;
    var j := i + |r|;
    TrimStartCutsWhitespace(s);
    TrimEndCutsWhitespace(t);
    assert t == s[i..];
    assert r == t[..|r|];
    SuffixSlices(s, i, |r|);
  }

  /** Slicing a suffix is slicing the whole. */
  lemma SuffixSlices<T>(s: seq<T>, i: nat, k: nat)
    requires i + k <= |s|
    ensures s[i..][..k] == s[i..i + k]
    ensures s[i..][k..] == s[i + k..]
  {
  }

  /** Trimming has exactly one possible result: `IsTrimOf` determines it. */
  lemma TrimUnique(s: string, r1: string, r2: string)
    requires IsTrimOf(r1, s) && IsTrimOf(r2, s)
    ensures r1 == r2
  {
    var i1, j1 :| 0 <= i1 <= j1 <= |s| && r1 == s[i1..j1] && AllWhitespace(s[..i1]) && AllWhitespace(s[j1..]);
    var i2, j2 :| 0 <= i2 <= j2 <= |s| && r2 == s[i2..j2] && AllWhitespace(s[..i2]) && AllWhitespace(s[j2..]);
    TrimSpanInside(s, i1, j1, i2, j2);
    TrimSpanInside(s, i2, j2, i1, j1);
  }

  /** A non-empty trim span of `s` lies inside every other trim span of `s`. */
  lemma TrimSpanInside(s: string, i1: int, j1: int, i2: int, j2: int)
    requires 0 <= i1 <= j1 <= |s| && AllWhitespace(s[..i1]) && AllWhitespace(s[j1..])
    requires 0 <= i2 <= j2 <= |s| && AllWhitespace(s[..i2]) && AllWhitespace(s[j2..])
    requires NoEdgeWhitespace(s[i2..j2])
    ensures i2 < j2 ==> i1 <= i2 && j2 <= j1
  {
    if i2 < j2 {
      WhitespaceBefore(s, i1);
      WhitespaceFrom(s, j1);
      assert s[i2..j2][0] == s[i2];
      assert s[i2..j2][j2 - i2 - 1] == s[j2 - 1];
    }
  }

  lemma WhitespaceBefore(s: string, i: int)
    requires 0 <= i <= |s| && AllWhitespace(s[..i])
    ensures forall k :: 0 <= k < i ==> IsWhitespace(s[k])
  {
    forall k | 0 <= k < i
      ensures IsWhitespace(s[k])
    {
      assert s[..i][k] == s[k];
    }
  }

  lemma WhitespaceFrom(s: string, j: int)
    requires 0 <= j <= |s| && AllWhitespace(s[j..])
    ensures forall k :: j <= k < |s| ==> IsWhitespace(s[k])
  {
    forall k | j <= k < |s|
      ensures IsWhitespace(s[k])
    {
      assert s[j..][k - j] == s[k];
    }
  }

  /** Trimming twice is trimming once. */
  lemma TrimIdempotent(s: string)
    ensures Trim(Trim(s)) == Trim(s)
  {
    var r := Trim(s);
    TrimOfClean(r);
  }

  /** A string with no whitespace at either end is its own trim. */
  lemma TrimOfClean(s: string)
    requires NoEdgeWhitespace(s)
    ensures Trim(s) == s
  {
    assert TrimStart(s) == s;
    assert TrimEnd(s) == s;
  }

  /** `s.trim()` is falsy exactly when `s` is made of whitespace only. */
  lemma TrimEmptyIff(s: string)
    ensures Trim(s) == [] <==> AllWhitespace(s)
  {
    if AllWhitespace(s) {
      assert s[..0] == [] && s[0..0] == [] && AllWhitespace(s[0..]);
      assert IsTrimOf([], s);
      TrimSpec(s);
      TrimUnique(s, [], Trim(s));
    } else {
      var k :| 0 <= k < |s| && !IsWhitespace(s[k]);
      var r := Trim(s);
      TrimSpec(s);
      var i, j :| 0 <= i <= j <= |s| && r == s[i..j] && AllWhitespace(s[..i]) && AllWhitespace(s[j..]);
      WhitespaceBefore(s, i);
      WhitespaceFrom(s, j);
    }
  }

  /** A non-empty sequence is its first element followed by the rest. */
  lemma HeadAndTail<T>(s: seq<T>)
    requires |s| > 0
    ensures s == [s[0]] + s[1..]
  {
  }

  /** Number of occurrences of `c` in `s`. */
  function Occurrences(s: string, c: char): nat {
    if |s| == 0 then 0 else (if s[0] == c then 1 else 0) + Occurrences(s[1..], c)
  }

  /** `s.split(sep)` for a one-character separator: the pieces between separators,
      including empty ones at either end. */
  function Split(s: string, sep: char): (pieces: seq<string>)
    ensures |pieces| == Occurrences(s, sep) + 1
    ensures forall k :: 0 <= k < |pieces| ==> sep !in pieces[k]
  {
    if |s| == 0 then [""]
    else
      var rest := Split(s[1..], sep);
      if s[0] == sep then [""] + rest
      else [[s[0]] + rest[0]] + rest[1..]
  }

  /** `parts.join(sep)`. */
  function Join(parts: seq<string>, sep: char): (r: string)
    ensures |parts| > 0 ==> |parts[0]| <= |r| && r[..|parts[0]|] == parts[0]
    ensures |parts| > 0 ==> |r| >= |parts| - 1
  {
    if |parts| == 0 then ""
    else if |parts| == 1 then parts[0]
    else parts[0] + [sep] + Join(parts[1..], sep)
  }

  /** Joining the pieces of a split gives back the original string. */
  lemma {:induction false} JoinSplit(s: string, sep: char)
    ensures Join(Split(s, sep), sep) == s
  {
    if |s| > 0 {
      var rest := Split(s[1..], sep);
      JoinSplit(s[1..], sep);
      if s[0] == sep {
        assert Join(Split(s, sep), sep) == "" + [sep] + Join(rest, sep);
      } else if |rest| == 1 {
        assert Join(Split(s, sep), sep) == [s[0]] + rest[0];
      } else {
        assert Join(rest, sep) == rest[0] + [sep] + Join(rest[1..], sep);
        assert Join(Split(s, sep), sep) == [s[0]] + rest[0] + [sep] + Join(rest[1..], sep);
      }
      assert s == [s[0]] + s[1..];
    }
  }

  /** Splitting a string whose prefix `a` holds no separator glues `a` to the first piece. */
  lemma {:induction false} SplitPrefix(a: string, t: string, sep: char)
    requires sep !in a
    ensures Split(a + t, sep) == [a + Split(t, sep)[0]] + Split(t, sep)[1..]
  {
    if |a| > 0 {
      SplitPrefix(a[1..], t, sep);
      assert (a + t)[0] == a[0] && a[0] in a;
      assert (a + t)[1..] == a[1..] + t;
      var rest := Split(a[1..] + t, sep);
      assert rest[0] == a[1..] + Split(t, sep)[0];
      assert [a[0]] + (a[1..] + Split(t, sep)[0]) == a + Split(t, sep)[0];
    } else {
      assert a + t == t;
      assert a + Split(t, sep)[0] == Split(t, sep)[0];
      assert [a + Split(t, sep)[0]] + Split(t, sep)[1..] == Split(t, sep);
    }
  }

  /** The separators a join inserts are the only ones in it. */
  lemma JoinOccurrences(parts: seq<string>, sep: char)
    requires |parts| >= 1
    requires forall k :: 0 <= k < |parts| ==> sep !in parts[k]
    ensures Occurrences(Join(parts, sep), sep) == |parts| - 1
  {
    SplitJoin(parts, sep);
  }

  /** Splitting a join of separator-free parts gives back the parts. */
  lemma {:induction false} SplitJoin(parts: seq<string>, sep: char)
    requires |parts| >= 1
    requires forall k :: 0 <= k < |parts| ==> sep !in parts[k]
    ensures Split(Join(parts, sep), sep) == parts
  {
    if |parts| == 1 {
      SplitPrefix(parts[0], "", sep);
      assert parts[0] + "" == parts[0];
      assert Split("", sep) == [""];
      assert Split(parts[0], sep) == [parts[0]] == parts;
    } else {
      var tail := Join(parts[1..], sep);
      SplitJoin(parts[1..], sep);
      SplitPrefix(parts[0], [sep] + tail, sep);
      assert ([sep] + tail)[0] == sep && ([sep] + tail)[1..] == tail;
      assert Split([sep] + tail, sep) == [""] + parts[1..];
      assert Join(parts, sep) == parts[0] + ([sep] + tail);
      assert parts[0] + "" == parts[0];
      assert parts == [parts[0]] + parts[1..];
    }
  }

  /** The first position holding `c`. */
  function IndexOf(s: string, c: char): (r: Option<nat>)
    ensures r.Some? ==> r.value < |s| && s[r.value] == c && c !in s[..r.value]
    ensures r.None? <==> c !in s
  {
    if |s| == 0 then None
    else if s[0] == c then Some(0)
    else match IndexOf(s[1..], c)
      case None => None
      case Some(i) =>
        assert s[..i + 1] == [s[0]] + s[1..][..i];
        Some(i + 1)
  }

  /** The last position holding `c`. */
  function LastIndexOf(s: string, c: char): (r: Option<nat>)
    ensures r.Some? ==> r.value < |s| && s[r.value] == c && c !in s[r.value + 1..]
    ensures r.None? <==> c !in s
  {
    if |s| == 0 then None
    else if s[|s| - 1] == c then Some(|s| - 1)
    else
      var p := s[..|s| - 1];
      match LastIndexOf(p, c)
      case None =>
        assert s == p + [s[|s| - 1]];
        None
      case Some(i) =>
        assert s[i + 1..] == p[i + 1..] + [s[|s| - 1]];
        Some(i)
  }

  /** The first `c` of `a + [c] + b` is the one after `a` when `a` holds none. */
  lemma {:induction false} IndexOfAfter(a: string, c: char, b: string)
    requires c !in a
    ensures IndexOf(a + [c] + b, c) == Some(|a|)
  {
    if |a| > 0 {
      IndexOfAfter(a[1..], c, b);
      assert (a + [c] + b)[1..] == a[1..] + [c] + b;
      assert (a + [c] + b)[0] == a[0] && a[0] in a;
    }
  }

  /** The last `c` of `a + [c] + b` is the one before `b` when `b` holds none. */
  lemma {:induction false} LastIndexOfBefore(a: string, c: char, b: string)
    requires c !in b
    ensures LastIndexOf(a + [c] + b, c) == Some(|a|)
  {
    if |b| > 0 {
      var b' := b[..|b| - 1];
      assert b[|b| - 1] in b;
      LastIndexOfBefore(a, c, b');
      assert (a + [c] + b)[..|a + [c] + b| - 1] == a + [c] + b';
    }
  }
}
