/**
 * The JavaScript string primitives the core relies on, written out over
 * `seq<char>`: the `\s` character class (which is also what `trim` strips),
 * `includes`, `startsWith`, `lastIndexOf`, `trim`, `join`, `split` on a
 * one-character string, `split(/\s+/)`, and `slice` with its index clamping.
 */
module Text {

  /**
   * JavaScript's `\s` class: WhiteSpace and LineTerminator code points
   * (ECMA-262 sections 12.2 and 12.3). `trim` strips exactly these.
   */
  const WhitespaceChars: set<char> :=
    {'\U{9}', '\U{A}', '\U{B}', '\U{C}', '\U{D}', '\U{20}', '\U{A0}', '\U{1680}',
     '\U{2000}', '\U{2001}', '\U{2002}', '\U{2003}', '\U{2004}', '\U{2005}', '\U{2006}', '\U{2007}',
     '\U{2008}', '\U{2009}', '\U{200A}', '\U{2028}', '\U{2029}', '\U{202F}', '\U{205F}', '\U{3000}', '\U{FEFF}'}

  /** `c` matches `\s`. */
  predicate IsWhitespace(c: char) {
    c in WhitespaceChars
  }

  /** Printable ASCII characters other than the space are not whitespace. */
  lemma VisibleAsciiNotWhitespace(c: char)
    requires '!' <= c <= '~'
    ensures !IsWhitespace(c)
  {
  }

  /** `sub` occurs at position `i` of `s`. */
  predicate OccursAt(s: string, sub: string, i: int) {
    0 <= i && i + |sub| <= |s| && s[i..i + |sub|] == sub
  }

  /** `s.includes(sub)`. */
  predicate Contains(s: string, sub: string) {
    exists i | 0 <= i <= |s| - |sub| :: OccursAt(s, sub, i)
  }

  /** `s.startsWith(p)`. */
  predicate StartsWith(s: string, p: string) {
    |p| <= |s| && s[..|p|] == p
  }

  /** The highest occurrence of `v` in `s` at or below position `k`, or -1. */
  function LastIndexAtOrBelow(s: string, v: string, k: int): (r: int)
    requires k <= |s| - |v|
    ensures r == -1 || 0 <= r <= k
    ensures r >= 0 ==> OccursAt(s, v, r)
    ensures forall j :: r < j <= k ==> !OccursAt(s, v, j)
    decreases k + 1
  {
    if k < 0 then -1
    else if s[k..k + |v|] == v then k
    else LastIndexAtOrBelow(s, v, k - 1)
  }

  /** `s.lastIndexOf(v)`: the highest position where `v` occurs in `s`, or -1. */
  function LastIndexOf(s: string, v: string): (r: int)
    ensures r == -1 <==> !Contains(s, v)
    ensures r != -1 ==> OccursAt(s, v, r) && forall j :: r < j ==> !OccursAt(s, v, j)
  {
    LastIndexAtOrBelow(s, v, |s| - |v|)
  }

  /** `s` without its leading whitespace. */
  function TrimStart(s: string): (r: string)
    ensures |r| <= |s| && r == s[|s| - |r|..]
    ensures forall k :: 0 <= k < |s| - |r| ==> IsWhitespace(s[k])
    ensures |r| > 0 ==> !IsWhitespace(r[0])
  {
    if |s| > 0 && IsWhitespace(s[0]) then
      var r := TrimStart(s[1..]);
      DropLeadingWhitespace(s, s[1..], r);
      r
    else s
  }

  /** What is left of `s[1..]` after leading whitespace is left of `s` too when `s[0]` is whitespace. */
  lemma DropLeadingWhitespace(s: string, t: string, r: string)
    requires |s| > 0 && IsWhitespace(s[0]) && t == s[1..]
    requires |r| <= |t| && r == t[|t| - |r|..]
    requires forall k :: 0 <= k < |t| - |r| ==> IsWhitespace(t[k])
    ensures r == s[|s| - |r|..]
    ensures forall k :: 0 <= k < |s| - |r| ==> IsWhitespace(s[k])
  {
    forall k | 0 < k < |s| - |r| ensures IsWhitespace(s[k]) {
      assert s[k] == t[k - 1];
    }
  }

  /** `s` without its trailing whitespace. */
  function TrimEnd(s: string): (r: string)
    ensures |r| <= |s| && r == s[..|r|]
    ensures forall k :: |r| <= k < |s| ==> IsWhitespace(s[k])
    ensures |r| > 0 ==> !IsWhitespace(r[|r| - 1])
  {
    if |s| > 0 && IsWhitespace(s[|s| - 1]) then
      var r := TrimEnd(s[..|s| - 1]);
      DropTrailingWhitespace(s, s[..|s| - 1], r);
      r
    else s
  }

  /** What is left of `s` without its last character after trailing whitespace is left of `s` too when that character is whitespace. */
  lemma DropTrailingWhitespace(s: string, t: string, r: string)
    requires |s| > 0 && IsWhitespace(s[|s| - 1]) && t == s[..|s| - 1]
    requires |r| <= |t| && r == t[..|r|]
    requires forall k :: |r| <= k < |t| ==> IsWhitespace(t[k])
    ensures r == s[..|r|]
    ensures forall k :: |r| <= k < |s| ==> IsWhitespace(s[k])
  {
    forall k | |r| <= k < |s| - 1 ensures IsWhitespace(s[k]) {
      assert s[k] == t[k];
    }
  }

  /** `r` sits at position `i` of `s` with only whitespace around it. */
  ghost predicate TrimmedAt(s: string, r: string, i: int) {
    OccursAt(s, r, i)
    && (forall k :: 0 <= k < i ==> IsWhitespace(s[k]))
    && (forall k :: i + |r| <= k < |s| ==> IsWhitespace(s[k]))
  }

  /** `s` neither starts nor ends with whitespace. */
  predicate NoWhitespaceAtEnds(s: string) {
    |s| == 0 || (!IsWhitespace(s[0]) && !IsWhitespace(s[|s| - 1]))
  }

  /**
   * `s.trim()`: the part of `s` left when the whitespace at both ends is
   * removed; it neither starts nor ends with whitespace.
   */
  function Trim(s: string): (r: string)
    ensures exists i :: TrimmedAt(s, r, i)
    ensures NoWhitespaceAtEnds(r)
  {
    var t := TrimStart(s);
    var r := TrimEnd(t);
    TrimmedPieces(s, t, r);
    assert |r| > 0 ==> r[0] == t[0];
    r
  }

  /**
   * A prefix `r` of a suffix `t` of `s`, where only whitespace precedes `t`
   * in `s` and only whitespace follows `r` in `t`, sits in `s` with only
   * whitespace around it.
   */
  lemma TrimmedPieces(s: string, t: string, r: string)
    requires |t| <= |s| && t == s[|s| - |t|..] && |r| <= |t| && r == t[..|r|]
    requires forall k :: 0 <= k < |s| - |t| ==> IsWhitespace(s[k])
    requires forall k :: |r| <= k < |t| ==> IsWhitespace(t[k])
    ensures TrimmedAt(s, r, |s| - |t|)
  {
    PrefixOfSuffix(s, t, r);
    WhitespaceAfterPrefix(s, t, r);
  }

  /** A prefix `r` of a suffix `t` of `s` occurs in `s` where `t` begins. */
  lemma PrefixOfSuffix(s: string, t: string, r: string)
    requires |t| <= |s| && t == s[|s| - |t|..] && |r| <= |t| && r == t[..|r|]
    ensures OccursAt(s, r, |s| - |t|)
  {
    var i := |s| - |t|;
    forall j | 0 <= j < |r| ensures s[i..i + |r|][j] == r[j] {
      assert r[j] == t[j] == s[i + j];
    }
  }

  /** Whitespace that follows the prefix `r` of a suffix `t` of `s` follows it in `s` too. */
  lemma WhitespaceAfterPrefix(s: string, t: string, r: string)
    requires |t| <= |s| && t == s[|s| - |t|..] && |r| <= |t|
    requires forall k :: |r| <= k < |t| ==> IsWhitespace(t[k])
    ensures forall k :: |s| - |t| + |r| <= k < |s| ==> IsWhitespace(s[k])
  {
    var i := |s| - |t|;
    forall k | i + |r| <= k < |s| ensures IsWhitespace(s[k]) {
      assert s[k] == t[k - i];
    }
  }

  /** A string without whitespace at either end is its own trim. */
  lemma TrimUnchanged(s: string)
    requires NoWhitespaceAtEnds(s)
    ensures Trim(s) == s
  {
  }

  /** `xs.join(sep)`. */
  function Join(xs: seq<string>, sep: string): (r: string)
    ensures xs == [] ==> r == []
    ensures |xs| == 1 ==> r == xs[0]
  {
    if xs == [] then []
    else if |xs| == 1 then xs[0]
    else xs[0] + sep + Join(xs[1..], sep)
  }

  /** The concatenation of all pieces. */
  function Concat(xs: seq<string>): string {
    if xs == [] then [] else xs[0] + Concat(xs[1..])
  }

  /** `s.split(c)` for a one-character separator `c`. */
  function SplitAt(s: string, c: char): (r: seq<string>)
    ensures |r| >= 1
    ensures forall t :: t in r ==> c !in t
  {
    if s == [] then [[]]
    else
      var rest := SplitAt(s[1..], c);
      if s[0] == c then [[]] + rest
      else
        assert forall t :: t in rest[1..] ==> t in rest;
        [[s[0]] + rest[0]] + rest[1..]
  }

  /** Splitting on `c` and joining with `c` gives the string back. */
  lemma {:induction false} SplitAtJoin(s: string, c: char)
    ensures Join(SplitAt(s, c), [c]) == s
  {
    if s != [] {
      var rest := SplitAt(s[1..], c);
      SplitAtJoin(s[1..], c);
      if s[0] == c {
        assert SplitAt(s, c) == [[]] + rest;
        assert |[[]] + rest| >= 2;
        assert ([[]] + rest)[1..] == rest;
      } else {
        var r := [[s[0]] + rest[0]] + rest[1..];
        assert SplitAt(s, c) == r;
        if |rest| == 1 {
          assert Join(rest, [c]) == rest[0];
        } else {
          assert Join(rest, [c]) == rest[0] + [c] + Join(rest[1..], [c]);
          assert r[1..] == rest[1..];
        }
      }
    }
  }

  /**
   * `s.split(/\s+/)`: the pieces between maximal runs of whitespace; a run
   * at either end leaves an empty piece there.
   */
  function SplitOnWhitespaceRuns(s: string): (r: seq<string>)
    ensures |r| >= 1
    ensures forall t, k :: t in r && 0 <= k < |t| ==> !IsWhitespace(t[k])
  {
    if s == [] then [[]]
    else
      var rest := SplitOnWhitespaceRuns(s[1..]);
      if !IsWhitespace(s[0]) then
        assert forall t :: t in rest[1..] ==> t in rest;
        [[s[0]] + rest[0]] + rest[1..]
      else if |s| > 1 && IsWhitespace(s[1]) then rest
      else [[]] + rest
  }

  /** `s` with every whitespace character removed. */
  function WithoutWhitespace(s: string): string {
    if s == [] then []
    else if IsWhitespace(s[0]) then WithoutWhitespace(s[1..])
    else [s[0]] + WithoutWhitespace(s[1..])
  }

  /** Splitting on whitespace runs drops the whitespace and nothing else. */
  lemma {:induction false} WhitespaceSplitKeepsText(s: string)
    ensures Concat(SplitOnWhitespaceRuns(s)) == WithoutWhitespace(s)
  {
    if s != [] {
      var rest := SplitOnWhitespaceRuns(s[1..]);
      WhitespaceSplitKeepsText(s[1..]);
      if !IsWhitespace(s[0]) {
        assert rest == [rest[0]] + rest[1..];
        assert SplitOnWhitespaceRuns(s) == [[s[0]] + rest[0]] + rest[1..];
      }
    }
  }

  /** A non-empty run of whitespace characters. */
  predicate IsWhitespaceRun(g: string) {
    g != [] && forall k :: 0 <= k < |g| ==> IsWhitespace(g[k])
  }

  /** The pieces with the gaps between them put back: `ps[0] + gs[0] + ps[1] + … + ps[|gs|]`. */
  function Interleave(ps: seq<string>, gs: seq<string>): string
    requires |ps| == |gs| + 1
  {
    if gs == [] then ps[0] else ps[0] + gs[0] + Interleave(ps[1..], gs[1..])
  }

  /** The maximal whitespace runs of `s`, left to right: what `split(/\s+/)` removes. */
  function WhitespaceRuns(s: string): seq<string> {
    if s == [] then []
    else
      var gs := WhitespaceRuns(s[1..]);
      if !IsWhitespace(s[0]) then gs
      else if |s| > 1 && IsWhitespace(s[1]) && gs != [] then [[s[0]] + gs[0]] + gs[1..]
      else [[s[0]]] + gs
  }

  /**
   * `ps` are the pieces of `s` between the runs `gs`: the pieces, with the
   * runs put back between them, give `s`; every run is a non-empty stretch
   * of whitespace, every piece is free of whitespace, and every piece
   * between two runs is non-empty, so each run is maximal. The first piece
   * is empty exactly when `s` starts with whitespace.
   */
  ghost predicate SplitsAtRuns(s: string, ps: seq<string>, gs: seq<string>) {
    |ps| == |gs| + 1
    && (forall i :: 0 <= i < |gs| ==> IsWhitespaceRun(gs[i]))
    && (forall i, k :: 0 <= i < |ps| && 0 <= k < |ps[i]| ==> !IsWhitespace(ps[i][k]))
    && Interleave(ps, gs) == s
    && (forall i :: 0 < i < |ps| - 1 ==> ps[i] != [])
    && (|s| > 0 ==> (ps[0] == [] <==> IsWhitespace(s[0])))
  }

  /**
   * `split(/\s+/)` cuts `s` at its maximal whitespace runs and nowhere
   * else; a run at an end leaves an empty piece there.
   */
  lemma {:induction false} WhitespaceSplitRoundTrip(s: string)
    ensures SplitsAtRuns(s, SplitOnWhitespaceRuns(s), WhitespaceRuns(s))
  {
    if s == [] {
      assert Interleave([[]], []) == [];
    } else {
      var rest, gs := SplitOnWhitespaceRuns(s[1..]), WhitespaceRuns(s[1..]);
      WhitespaceSplitRoundTrip(s[1..]);
      if !IsWhitespace(s[0]) {
        RunsStepWord(s, rest, gs);
      } else if |s| > 1 && IsWhitespace(s[1]) {
        RunsStepLongerGap(s, rest, gs);
      } else {
        RunsStepNewGap(s, rest, gs);
      }
    }
  }

  /** A non-whitespace first character joins the first piece. */
  lemma RunsStepWord(s: string, rest: seq<string>, gs: seq<string>)
    requires s != [] && !IsWhitespace(s[0]) && SplitsAtRuns(s[1..], rest, gs)
    ensures SplitsAtRuns(s, [[s[0]] + rest[0]] + rest[1..], gs)
  {
    var ps := [[s[0]] + rest[0]] + rest[1..];
    InterleaveExtendFirst([s[0]], rest, gs);
    assert s == [s[0]] + s[1..];
    forall i, k | 0 <= i < |ps| && 0 <= k < |ps[i]| ensures !IsWhitespace(ps[i][k]) {
      if i == 0 {
        assert k == 0 || ps[0][k] == rest[0][k - 1];
      } else {
        assert ps[i] == rest[i];
      }
    }
    forall i | 0 < i < |ps| - 1 ensures ps[i] != [] {
      assert ps[i] == rest[i];
    }
  }

  /** A whitespace character before whitespace lengthens the first run. */
  lemma RunsStepLongerGap(s: string, rest: seq<string>, gs: seq<string>)
    requires |s| > 1 && IsWhitespace(s[0]) && IsWhitespace(s[1]) && SplitsAtRuns(s[1..], rest, gs)
    ensures gs != []
    ensures SplitsAtRuns(s, rest, [[s[0]] + gs[0]] + gs[1..])
  {
    assert s[1..][0] == s[1];
    if gs == [] {
      assert false;
    }
    var hs := [[s[0]] + gs[0]] + gs[1..];
    InterleaveExtendGap([s[0]], rest, gs);
    assert s == [s[0]] + s[1..];
    forall i | 0 <= i < |hs| ensures IsWhitespaceRun(hs[i]) {
      if i == 0 {
        forall k | 0 <= k < |hs[0]| ensures IsWhitespace(hs[0][k]) {
          assert k == 0 || hs[0][k] == gs[0][k - 1];
        }
      } else {
        assert hs[i] == gs[i];
      }
    }
  }

  /** A whitespace character before a non-whitespace one, or alone, starts a new run behind an empty piece. */
  lemma RunsStepNewGap(s: string, rest: seq<string>, gs: seq<string>)
    requires s != [] && IsWhitespace(s[0]) && !(|s| > 1 && IsWhitespace(s[1])) && SplitsAtRuns(s[1..], rest, gs)
    ensures SplitsAtRuns(s, [[]] + rest, [[s[0]]] + gs)
  {
    var ps, hs := [[]] + rest, [[s[0]]] + gs;
    assert ps[1..] == rest && hs[1..] == gs;
    assert Interleave(ps, hs) == [] + [s[0]] + Interleave(rest, gs);
    assert s == [s[0]] + s[1..];
    forall i | 0 <= i < |hs| ensures IsWhitespaceRun(hs[i]) {
      if i > 0 {
        assert hs[i] == gs[i - 1];
      }
    }
    forall i, k | 0 <= i < |ps| && 0 <= k < |ps[i]| ensures !IsWhitespace(ps[i][k]) {
      assert ps[i] == rest[i - 1];
    }
    forall i | 0 < i < |ps| - 1 ensures ps[i] != [] {
      assert ps[i] == rest[i - 1];
      if i == 1 {
        assert |s| > 1 && s[1..][0] == s[1];
      }
    }
  }

  /** Putting `c` in front of the first piece puts it in front of the whole. */
  lemma InterleaveExtendFirst(c: string, ps: seq<string>, gs: seq<string>)
    requires |ps| == |gs| + 1
    ensures Interleave([c + ps[0]] + ps[1..], gs) == c + Interleave(ps, gs)
  {
    var qs := [c + ps[0]] + ps[1..];
    if gs != [] {
      assert qs[1..] == ps[1..];
    }
  }

  /** Putting `c` in front of the first gap, behind an empty first piece, puts it in front of the whole. */
  lemma InterleaveExtendGap(c: string, ps: seq<string>, gs: seq<string>)
    requires |ps| == |gs| + 1 && gs != [] && ps[0] == []
    ensures Interleave(ps, [c + gs[0]] + gs[1..]) == c + Interleave(ps, gs)
  {
    var hs := [c + gs[0]] + gs[1..];
    assert hs[1..] == gs[1..];
  }

  /** An index argument of `slice`: negative counts from the end; clamped to the string. */
  function SliceIndex(i: int, len: nat): (r: nat)
    ensures r <= len
    ensures 0 <= i <= len ==> r == i
  {
    if i < 0 then (if len + i < 0 then 0 else len + i)
    else if i > len then len
    else i
  }

  /** `s.slice(b, e)`. */
  function Slice(s: string, b: int, e: int): (r: string)
    ensures 0 <= b <= e <= |s| ==> r == s[b..e]
    ensures 0 <= b && |s| <= e ==> r == s[SliceIndex(b, |s|)..]
  {
    var from, to := SliceIndex(b, |s|), SliceIndex(e, |s|);
    if from < to then s[from..to] else []
  }
}
