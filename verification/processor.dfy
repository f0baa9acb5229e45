/**
 * `processText` of src/processor.ts: finds class strings with the
 * configured matchers, skips ignored ones, and splices the sorted strings
 * back into the text from the last match to the first.
 *
 * The sorter the rewriter awaits is a parameter `sort`, a function from
 * a class string to its sorted form; the regular-expression engine is the
 * parameter `exec` of the nested matcher.
 */
module Processor {
  import opened Seqs
  import opened Text
  import opened Types
  import opened MatcherBuilder
  import opened TextMatch

  /** The marker that switches rewriting off for the whole text. */
  const IgnoreAll: string := "headwind-ignore-all"

  /** The marker that keeps one class string as it is. */
  const Ignore: string := "headwind-ignore"

  /** A class string found in the text, with its offset. */
  datatype Found = Found(classString: string, startPosition: int)

  /** Replace `[start, end)` of the text with `replacement`. */
  datatype Replacement = Replacement(start: int, end: int, replacement: string)

  /**
   * The callback of the collection loop over one matcher's reports: every
   * report whose value lacks the ignore marker is kept, in report order.
   */
  function Unignored(reports: seq<Report>): seq<Found>
  {
    if reports == [] then []
    else
      (if Contains(reports[0].value, Ignore) then [] else [Found(reports[0].value, reports[0].position)])
      + Unignored(reports[1..])
  }

  /** The kept class strings are exactly the reports without the ignore marker. */
  lemma {:induction false} UnignoredMembers(reports: seq<Report>)
    ensures forall f :: f in Unignored(reports) ==>
              !Contains(f.classString, Ignore) && Report(f.classString, f.startPosition) in reports
    ensures forall rep :: rep in reports && !Contains(rep.value, Ignore) ==> Found(rep.value, rep.position) in Unignored(reports)
  {
    if reports != [] {
      UnignoredMembers(reports[1..]);
      assert forall rep :: rep in reports ==> rep == reports[0] || rep in reports[1..];
    }
  }

  /** Every matcher's unignored reports, matcher after matcher: the `matches` array. */
  function Collect(text: string, matchers: seq<Matcher>, exec: (Regex, string) -> seq<RegexMatch>): seq<Found>
    requires ExecWellFormed(exec)
  {
    if matchers == [] then []
    else Unignored(Reports(matchers[0].regex, text, exec, 0)) + Collect(text, matchers[1..], exec)
  }

  /** A collected class string: non-empty, without the ignore marker, and standing in `text` at its offset. */
  predicate GoodFound(text: string, f: Found) {
    f.classString != [] && !Contains(f.classString, Ignore) && Located(text, f.classString, f.startPosition)
  }

  /** The collected class strings are exactly the unignored reports of the matchers. */
  lemma {:induction false} CollectMembers(text: string, matchers: seq<Matcher>, exec: (Regex, string) -> seq<RegexMatch>)
    requires ExecWellFormed(exec)
    ensures forall f :: f in Collect(text, matchers, exec) <==>
              exists i :: 0 <= i < |matchers| && f in Unignored(Reports(matchers[i].regex, text, exec, 0))
  {
    if matchers != [] {
      CollectMembers(text, matchers[1..], exec);
      forall f | (exists i :: 0 <= i < |matchers| && f in Unignored(Reports(matchers[i].regex, text, exec, 0)))
        ensures f in Collect(text, matchers, exec)
      {
        var i :| 0 <= i < |matchers| && f in Unignored(Reports(matchers[i].regex, text, exec, 0));
        if i > 0 {
          assert matchers[i] == matchers[1..][i - 1];
        }
      }
      forall f | f in Collect(text, matchers[1..], exec)
        ensures exists i :: 0 <= i < |matchers| && f in Unignored(Reports(matchers[i].regex, text, exec, 0))
      {
        var i :| 0 <= i < |matchers[1..]| && f in Unignored(Reports(matchers[1..][i].regex, text, exec, 0));
        assert matchers[1..][i] == matchers[i + 1];
      }
    }
  }

  /**
   * Each collected class string is non-empty, lacks the ignore marker, and
   * stands in the text at its offset; an empty text yields none.
   */
  lemma {:induction false} CollectLocated(text: string, matchers: seq<Matcher>, exec: (Regex, string) -> seq<RegexMatch>)
    requires ExecWellFormed(exec)
    ensures forall f :: f in Collect(text, matchers, exec) ==> GoodFound(text, f)
    ensures text == [] ==> Collect(text, matchers, exec) == []
  {
    if matchers != [] {
      CollectLocated(text, matchers[1..], exec);
      var reports := Reports(matchers[0].regex, text, exec, 0);
      var here := Unignored(reports);
      UnignoredMembers(reports);
      assert Located(text, text, 0) by {
        assert text[0..|text|] == text;
      }
      ReportsLocated(text, matchers[0].regex, text, exec, 0);
      forall f | f in here ensures GoodFound(text, f) {
        var k :| 0 <= k < |reports| && reports[k] == Report(f.classString, f.startPosition);
      }
      if here != [] {
        assert here[0] in here;
      }
    }
  }

  /** The sort key: descending offset, as `(a, b) => b.startPosition - a.startPosition`. */
  function StartDesc(f: Found): int {
    -f.startPosition
  }

  /** The first `n` entries of `s` are in non-increasing offset order, neighbour by neighbour. */
  ghost predicate DescendingPrefix(s: seq<Found>, n: int)
    requires 0 <= n <= |s|
  {
    forall p :: 0 < p < n ==> s[p - 1].startPosition >= s[p].startPosition
  }

  /** Neighbour-wise order is order by the key. */
  lemma {:induction false} DescendingIsSorted(s: seq<Found>)
    requires DescendingPrefix(s, |s|)
    ensures SortedBy(s, StartDesc)
  {
    if s != [] {
      var t := s[1..];
      assert DescendingPrefix(t, |t|) by {
        forall p | 0 < p < |t| ensures t[p - 1].startPosition >= t[p].startPosition {
          assert t[p - 1] == s[p] && t[p] == s[p + 1];
        }
      }
      DescendingIsSorted(t);
      forall i, j | 0 <= i < j < |s| ensures StartDesc(s[i]) <= StartDesc(s[j]) {
        if 0 < i {
          assert s[i] == t[i - 1] && s[j] == t[j - 1];
        } else if 1 < j {
          assert s[1] == t[0] && s[j] == t[j - 1];
        }
      }
    }
  }

  /** `matches.sort(...)`: an in-place insertion sort by descending offset. */
  method SortByDescendingStart(a: array<Found>)
    modifies a
    ensures SortedBy(a[..], StartDesc)
    ensures multiset(a[..]) == multiset(old(a[..]))
  {
    var i := 0;
    while i < a.Length
      invariant 0 <= i <= a.Length
      invariant DescendingPrefix(a[..], i)
      invariant multiset(a[..]) == multiset(old(a[..]))
    {
      InsertIntoPrefix(a, i);
      i := i + 1;
    }
    DescendingIsSorted(a[..]);
  }

  /** Moves `a[i]` left past every entry with a smaller offset, extending the sorted prefix by one. */
  method InsertIntoPrefix(a: array<Found>, i: int)
    requires 0 <= i < a.Length && DescendingPrefix(a[..], i)
    modifies a
    ensures DescendingPrefix(a[..], i + 1)
    ensures multiset(a[..]) == multiset(old(a[..]))
  {
    var j := i;
    InsertionStart(a[..], i);
    while j > 0 && a[j - 1].startPosition < a[j].startPosition
      invariant 0 <= j <= i
      invariant InsertionState(a[..], i, j)
      invariant multiset(a[..]) == multiset(old(a[..]))
    {
      ghost var s := a[..];
      a[j - 1], a[j] := a[j], a[j - 1];
      assert a[..] == s[j - 1 := s[j]][j := s[j - 1]];
      InsertionStep(s, i, j);
      SwapKeepsMultiset(s, j);
      j := j - 1;
    }
    InsertionDone(a[..], i, j);
  }

  /**
   * Insertion of `s[j]`, which started at `i`, is under way: every pair of
   * neighbours in `[0, i]` is in order except the two around `j`, the
   * entries on both sides of `j` are in order, and everything passed has a
   * smaller offset than `s[j]`.
   */
  ghost predicate InsertionState(s: seq<Found>, i: int, j: int)
    requires 0 <= j <= i < |s|
  {
    (forall p :: 0 < p <= i && p != j && p != j + 1 ==> s[p - 1].startPosition >= s[p].startPosition)
    && (0 < j < i ==> s[j - 1].startPosition >= s[j + 1].startPosition)
    && (j < i ==> s[j].startPosition > s[j + 1].startPosition)
  }

  /** Insertion starts with the sorted prefix and the new entry in place. */
  lemma InsertionStart(s: seq<Found>, i: int)
    requires 0 <= i < |s| && DescendingPrefix(s, i)
    ensures InsertionState(s, i, i)
  {
  }

  /** Swapping the entry with a left neighbour of smaller offset keeps the insertion going. */
  lemma InsertionStep(s: seq<Found>, i: int, j: int)
    requires 0 < j <= i < |s| && InsertionState(s, i, j)
    requires s[j - 1].startPosition < s[j].startPosition
    ensures InsertionState(s[j - 1 := s[j]][j := s[j - 1]], i, j - 1)
  {
    var t := s[j - 1 := s[j]][j := s[j - 1]];
    forall p | 0 < p <= i && p != j - 1 && p != j
      ensures t[p - 1].startPosition >= t[p].startPosition
    {
      if p == j + 1 {
        assert t[p - 1] == s[j - 1] && t[p] == s[j + 1];
      } else {
        assert t[p - 1] == s[p - 1] && t[p] == s[p];
      }
    }
  }

  /** Insertion ends when the left neighbour has an offset at least as large: the prefix is sorted. */
  lemma InsertionDone(s: seq<Found>, i: int, j: int)
    requires 0 <= j <= i < |s| && InsertionState(s, i, j)
    requires j == 0 || s[j - 1].startPosition >= s[j].startPosition
    ensures DescendingPrefix(s, i + 1)
  {
  }

  /** Exchanging two neighbours keeps the multiset. */
  lemma SwapKeepsMultiset(s: seq<Found>, j: int)
    requires 0 < j < |s|
    ensures multiset(s[j - 1 := s[j]][j := s[j - 1]]) == multiset(s)
  {
  }

  /** The sorter changes the class string. */
  predicate Changed(f: Found, sort: string -> string) {
    sort(f.classString) != f.classString
  }

  /** The replacement recorded for `f`: its span in the text and its sorted string. */
  function ReplacementFor(f: Found, sort: string -> string): (r: Replacement)
    ensures r.end - r.start == |f.classString|
  {
    Replacement(f.startPosition, f.startPosition + |f.classString|, sort(f.classString))
  }

  /** The replacements the rewriter records, in the order of `fs`: one per changed class string. */
  function Replacements(fs: seq<Found>, sort: string -> string): seq<Replacement> {
    if fs == [] then []
    else (if Changed(fs[0], sort) then [ReplacementFor(fs[0], sort)] else []) + Replacements(fs[1..], sort)
  }

  /**
   * A replacement is recorded for a found class string exactly when the
   * sorter changes it, and covers exactly the span of the original string;
   * there are none when the sorter changes nothing.
   */
  lemma {:induction false} ReplacementsSpec(fs: seq<Found>, sort: string -> string)
    ensures forall r :: r in Replacements(fs, sort) ==>
              exists f :: f in fs && Changed(f, sort) && r == ReplacementFor(f, sort)
    ensures forall f :: f in fs && Changed(f, sort) ==> ReplacementFor(f, sort) in Replacements(fs, sort)
    ensures Replacements(fs, sort) == [] <==> forall f :: f in fs ==> !Changed(f, sort)
  {
    if fs != [] {
      var rest := Replacements(fs[1..], sort);
      ReplacementsSpec(fs[1..], sort);
      assert fs == [fs[0]] + fs[1..];
      forall r | r in Replacements(fs, sort)
        ensures exists f :: f in fs && Changed(f, sort) && r == ReplacementFor(f, sort)
      {
        if r !in rest {
          assert fs[0] in fs;
        }
      }
    }
  }

  /** `s.slice(0, r.start) + r.replacement + s.slice(r.end)`. */
  function Splice(s: string, r: Replacement): (t: string)
    ensures 0 <= r.start <= r.end <= |s| ==> t == s[..r.start] + r.replacement + s[r.end..]
  {
    Slice(s, 0, r.start) + r.replacement + Slice(s, r.end, |s|)
  }

  /** The replacement loop: splices applied one after the other, first to last. */
  function Fold(s: string, reps: seq<Replacement>): string
    decreases reps
  {
    if reps == [] then s else Fold(Splice(s, reps[0]), reps[1..])
  }

  /**
   * Spans inside `[0, n)`, in order of strictly decreasing position, each
   * ending at or before the start of the previous one.
   */
  predicate SpansDescending(reps: seq<Replacement>, n: int) {
    reps == [] || (0 <= reps[0].start <= reps[0].end <= n && SpansDescending(reps[1..], reps[0].start))
  }

  /** The found class strings occupy disjoint spans inside `[0, n)`, last one first. */
  predicate FoundDescending(fs: seq<Found>, n: int) {
    fs == [] ||
    (0 <= fs[0].startPosition && fs[0].startPosition + |fs[0].classString| <= n
     && FoundDescending(fs[1..], fs[0].startPosition))
  }

  /** Every span replaced in the original text at once: the reference for the splice loop. */
  function Rebuild(t: string, reps: seq<Replacement>): string
    requires SpansDescending(reps, |t|)
    decreases reps
  {
    if reps == [] then t
    else Rebuild(t[..reps[0].start], reps[1..]) + reps[0].replacement + t[reps[0].end..]
  }

  /** Splices that stay inside `p` leave whatever follows `p` alone. */
  lemma {:induction false} FoldKeepsSuffix(p: string, q: string, reps: seq<Replacement>)
    requires SpansDescending(reps, |p|)
    ensures Fold(p + q, reps) == Fold(p, reps) + q
    decreases reps
  {
    if reps != [] {
      var r := reps[0];
      assert (p + q)[..r.start] == p[..r.start];
      assert (p + q)[r.end..] == p[r.end..] + q;
      assert Splice(p + q, r) == Splice(p, r) + q;
      SpansWeaken(reps[1..], r.start, |Splice(p, r)|);
      FoldKeepsSuffix(Splice(p, r), q, reps[1..]);
    }
  }

  /**
   * Applied right to left, each splice leaves everything before its start
   * untouched, so the lower spans still address the original text: the
   * loop equals replacing every span of the original text at once.
   */
  lemma {:induction false} FoldIsRebuild(t: string, reps: seq<Replacement>)
    requires SpansDescending(reps, |t|)
    ensures Fold(t, reps) == Rebuild(t, reps)
    decreases reps
  {
    if reps != [] {
      var r := reps[0];
      var head := t[..r.start];
      assert Splice(t, r) == head + (r.replacement + t[r.end..]);
      FoldKeepsSuffix(head, r.replacement + t[r.end..], reps[1..]);
      FoldIsRebuild(head, reps[1..]);
    }
  }

  /** No span of `reps` starts below `lo` or ends above `hi`. */
  predicate SpansBetween(reps: seq<Replacement>, lo: int, hi: int) {
    forall k :: 0 <= k < |reps| ==> lo <= reps[k].start && reps[k].end <= hi
  }

  /**
   * Text outside the spans is kept: what lies before every span starts the
   * result, and what lies after every span ends it.
   */
  lemma {:induction false} RebuildKeepsOutside(t: string, reps: seq<Replacement>, lo: int, hi: int)
    requires SpansDescending(reps, |t|) && 0 <= lo <= hi <= |t| && SpansBetween(reps, lo, hi)
    ensures var r := Rebuild(t, reps);
            lo <= |r| && |t| - hi <= |r| && r[..lo] == t[..lo] && r[|r| - (|t| - hi)..] == t[hi..]
    decreases reps
  {
    if reps != [] {
      var head := t[..reps[0].start];
      assert lo <= reps[0].start && reps[0].end <= hi by {
        assert 0 <= 0 < |reps|;
      }
      assert SpansBetween(reps[1..], lo, reps[0].start) by {
        forall k | 0 <= k < |reps[1..]| ensures lo <= reps[1..][k].start && reps[1..][k].end <= reps[0].start {
          assert reps[1..][k] == reps[k + 1];
          SpansBelowHead(reps, |t|, k + 1);
        }
      }
      RebuildKeepsOutside(head, reps[1..], lo, reps[0].start);
    }
  }

  /** In descending spans, every later span ends at or before the first one starts. */
  lemma {:induction false} SpansBelowHead(reps: seq<Replacement>, n: int, k: int)
    requires SpansDescending(reps, n) && 0 < k < |reps|
    ensures reps[k].end <= reps[0].start
  {
    if k > 1 {
      SpansBelowHead(reps[1..], reps[0].start, k - 1);
    }
  }

  /** A span bound may be raised. */
  lemma SpansWeaken(reps: seq<Replacement>, n: int, m: int)
    requires SpansDescending(reps, n) && n <= m
    ensures SpansDescending(reps, m)
  {
  }

  /** Found strings with pairwise-disjoint spans and no repeats: the rewriter's precondition. */
  ghost predicate NonOverlapping(fs: seq<Found>) {
    NoDuplicates(fs)
    && forall x, y :: x in fs && y in fs && x != y ==>
         x.startPosition + |x.classString| <= y.startPosition
         || y.startPosition + |y.classString| <= x.startPosition
  }

  /** Non-overlapping non-empty strings have distinct offsets, so the sort key tells them apart. */
  lemma OffsetsDistinct(fs: seq<Found>)
    requires NonOverlapping(fs) && forall f :: f in fs ==> f.classString != []
    ensures forall x, y :: x in fs && y in fs && StartDesc(x) == StartDesc(y) ==> x == y
  {
  }

  /** Sorted by descending offset, non-overlapping located strings form descending spans. */
  lemma {:induction false} SortedFoundDescending(s: seq<Found>, n: int)
    requires SortedBy(s, StartDesc) && NonOverlapping(s)
    requires forall f :: f in s ==> f.classString != [] && 0 <= f.startPosition && f.startPosition + |f.classString| <= n
    ensures FoundDescending(s, n)
  {
    if s != [] {
      var h := s[0];
      SortedTail(s, StartDesc);
      forall f | f in s[1..] ensures f.startPosition + |f.classString| <= h.startPosition {
        var k :| 0 <= k < |s[1..]| && s[1..][k] == f;
        LaterEndsBeforeHead(s, k + 1);
      }
      SortedFoundDescending(s[1..], h.startPosition);
    }
  }

  /** In a sorted run of non-overlapping non-empty strings, every later one ends before the first starts. */
  lemma LaterEndsBeforeHead(s: seq<Found>, k: int)
    requires SortedBy(s, StartDesc) && NonOverlapping(s) && 0 < k < |s|
    requires s[0].classString != [] && s[k].classString != []
    ensures s[k].startPosition + |s[k].classString| <= s[0].startPosition
  {
    assert s[0] != s[k];
    assert StartDesc(s[0]) <= StartDesc(s[k]);
  }

  /** The replacements of descending found strings are descending spans. */
  lemma {:induction false} ReplacementsDescending(fs: seq<Found>, sort: string -> string, n: int)
    requires FoundDescending(fs, n)
    ensures SpansDescending(Replacements(fs, sort), n)
  {
    if fs != [] {
      var rest := Replacements(fs[1..], sort);
      ReplacementsDescending(fs[1..], sort, fs[0].startPosition);
      if Changed(fs[0], sort) {
        assert ([ReplacementFor(fs[0], sort)] + rest)[1..] == rest;
      } else {
        assert Replacements(fs, sort) == rest;
        SpansWeaken(rest, fs[0].startPosition, n);
      }
    }
  }

  /** The class strings `processText` collects from `text`. */
  function Collected(text: string, langConfig: LangConfig, exec: (Regex, string) -> seq<RegexMatch>): seq<Found>
    requires ExecWellFormed(exec)
  {
    Collect(text, BuildMatchers(langConfig), exec)
  }

  /** The replacements `processText` records, by descending offset. */
  function Planned(text: string, langConfig: LangConfig, exec: (Regex, string) -> seq<RegexMatch>,
                   sort: string -> string): seq<Replacement>
    requires ExecWellFormed(exec)
  {
    Replacements(SortBy(Collected(text, langConfig, exec), StartDesc), sort)
  }

  /**
   * What `processText` returns: the text as it is when it carries the
   * ignore-all marker, and otherwise the text with the planned
   * replacements spliced in, one after the other.
   */
  function Rewrite(text: string, langConfig: LangConfig, exec: (Regex, string) -> seq<RegexMatch>,
                   sort: string -> string): string
    requires ExecWellFormed(exec)
  {
    if Contains(text, IgnoreAll) then text else Fold(text, Planned(text, langConfig, exec, sort))
  }

  /** The replacement `r` stands for a collected, unignored class string of `text` that the sorter changes. */
  ghost predicate Justified(text: string, found: seq<Found>, sort: string -> string, r: Replacement) {
    exists f :: f in found && Changed(f, sort) && r == ReplacementFor(f, sort)
                && !Contains(f.classString, Ignore) && Located(text, f.classString, f.startPosition)
  }

  /**
   * Every planned replacement covers exactly a collected, unignored class
   * string of the original text and puts the sorter's changed string there.
   */
  lemma PlannedJustified(text: string, langConfig: LangConfig, exec: (Regex, string) -> seq<RegexMatch>,
                         sort: string -> string)
    requires ExecWellFormed(exec)
    ensures forall r :: r in Planned(text, langConfig, exec, sort) ==>
              Justified(text, Collected(text, langConfig, exec), sort, r)
  {
    var found := Collected(text, langConfig, exec);
    var sorted := SortBy(found, StartDesc);
    CollectLocated(text, BuildMatchers(langConfig), exec);
    PermutationMembers(sorted, found);
    ReplacementsSpec(sorted, sort);
    forall r | r in Replacements(sorted, sort) ensures Justified(text, found, sort, r) {
      var f :| f in sorted && Changed(f, sort) && r == ReplacementFor(f, sort);
      assert f in found && GoodFound(text, f);
    }
  }

  /** With non-overlapping matches the planned replacements are disjoint spans, last one first. */
  lemma PlannedDescending(text: string, langConfig: LangConfig, exec: (Regex, string) -> seq<RegexMatch>,
                          sort: string -> string)
    requires ExecWellFormed(exec) && NonOverlapping(Collected(text, langConfig, exec))
    ensures SpansDescending(Planned(text, langConfig, exec, sort), |text|)
  {
    var found := Collected(text, langConfig, exec);
    var sorted := SortBy(found, StartDesc);
    CollectLocated(text, BuildMatchers(langConfig), exec);
    GoodFoundInside(text, found, sorted);
    NonOverlappingPermutation(found, sorted);
    SortedFoundDescending(sorted, |text|);
    ReplacementsDescending(sorted, sort, |text|);
  }

  /** A permutation of collected class strings lies inside the text, each one non-empty. */
  lemma GoodFoundInside(text: string, found: seq<Found>, s: seq<Found>)
    requires (forall f :: f in found ==> GoodFound(text, f)) && multiset(s) == multiset(found)
    ensures forall f :: f in s ==> f.classString != [] && 0 <= f.startPosition && f.startPosition + |f.classString| <= |text|
  {
    PermutationMembers(s, found);
    forall f | f in s
      ensures f.classString != [] && 0 <= f.startPosition && f.startPosition + |f.classString| <= |text|
    {
      assert GoodFound(text, f);
    }
  }

  /** Reordering keeps class strings apart. */
  lemma NonOverlappingPermutation(a: seq<Found>, b: seq<Found>)
    requires NonOverlapping(a) && multiset(a) == multiset(b)
    ensures NonOverlapping(b)
  {
    PermutationMembers(a, b);
    NoDuplicatesPermutation(a, b);
  }

  /**
   * The rewrite replaces disjoint spans of the original text, right to
   * left, as if all at once: each replaced span held a collected,
   * unignored class string that the sorter changed, and the text outside
   * the spans is kept.
   */
  lemma RewriteSpec(text: string, langConfig: LangConfig, exec: (Regex, string) -> seq<RegexMatch>,
                    sort: string -> string)
    requires ExecWellFormed(exec) && !Contains(text, IgnoreAll)
    requires NonOverlapping(Collected(text, langConfig, exec))
    ensures SpansDescending(Planned(text, langConfig, exec, sort), |text|)
    ensures Rewrite(text, langConfig, exec, sort) == Rebuild(text, Planned(text, langConfig, exec, sort))
  {
    PlannedDescending(text, langConfig, exec, sort);
    FoldIsRebuild(text, Planned(text, langConfig, exec, sort));
  }

  /** When the sorter leaves every collected class string as it is, the text is unchanged. */
  lemma RewriteUnchangedWhenSorted(text: string, langConfig: LangConfig, exec: (Regex, string) -> seq<RegexMatch>,
                                   sort: string -> string)
    requires ExecWellFormed(exec)
    requires forall f :: f in Collected(text, langConfig, exec) ==> !Changed(f, sort)
    ensures Rewrite(text, langConfig, exec, sort) == text
  {
    var found := Collected(text, langConfig, exec);
    var sorted := SortBy(found, StartDesc);
    PermutationMembers(sorted, found);
    ReplacementsSpec(sorted, sort);
  }

  /** An empty text is returned as it is. */
  lemma RewriteEmpty(langConfig: LangConfig, exec: (Regex, string) -> seq<RegexMatch>, sort: string -> string)
    requires ExecWellFormed(exec)
    ensures Rewrite([], langConfig, exec, sort) == []
  {
    CollectLocated([], BuildMatchers(langConfig), exec);
  }

  /** The sorted array is the reference sort of the collected strings: the key leaves no ties. */
  lemma SortedArrayIsSortBy(s: seq<Found>, found: seq<Found>)
    requires SortedBy(s, StartDesc) && multiset(s) == multiset(found)
    requires NonOverlapping(found) && forall f :: f in found ==> f.classString != []
    ensures s == SortBy(found, StartDesc)
  {
    OffsetsDistinct(found);
    forall x, y | x in s && y in s && StartDesc(x) == StartDesc(y) ensures x == y {
      assert x in multiset(found) && y in multiset(found);
    }
    SortedUnique(s, SortBy(found, StartDesc), StartDesc);
  }

  /**
   * The collecting loops of `processText`: every matcher's reports in
   * matcher order, without the ones marked `headwind-ignore`.
   */
  method CollectMatches(text: string, matchers: seq<Matcher>, exec: (Regex, string) -> seq<RegexMatch>)
    returns (matches: seq<Found>)
    requires ExecWellFormed(exec)
    ensures matches == Collect(text, matchers, exec)
  {
    matches := [];
    var i := 0;
    while i < |matchers|
      invariant 0 <= i <= |matchers|
      invariant matches + Collect(text, matchers[i..], exec) == Collect(text, matchers, exec)
    {
      var reports := GetTextMatch(matchers[i].regex, text, exec, 0);
      assert matchers[i..][1..] == matchers[i + 1..];
      var kept := KeepUnignored(reports);
      matches := matches + kept;
      i := i + 1;
    }
  }

  /** The inner loop of the collection: the reports not marked `headwind-ignore`, as found class strings. */
  method KeepUnignored(reports: seq<Report>) returns (kept: seq<Found>)
    ensures kept == Unignored(reports)
  {
    kept := [];
    var j := 0;
    while j < |reports|
      invariant 0 <= j <= |reports|
      invariant kept + Unignored(reports[j..]) == Unignored(reports)
    {
      var classString, startPosition := reports[j].value, reports[j].position;
      assert reports[j..][1..] == reports[j + 1..];
      if !Contains(classString, Ignore) {
        kept := kept + [Found(classString, startPosition)];
      }
      j := j + 1;
    }
  }

  /** The replacement loop of `processText`: one replacement per class string the sorter changes, in array order. */
  method BuildReplacements(a: array<Found>, sort: string -> string) returns (replacements: seq<Replacement>)
    ensures replacements == Replacements(a[..], sort)
  {
    ghost var ms := a[..];
    replacements := [];
    var k := 0;
    while k < a.Length
      invariant 0 <= k <= a.Length
      invariant replacements == Replacements(ms[..k], sort)
    {
      var m := a[k];
      var sorted := sort(m.classString);
      assert ms[..k + 1] == ms[..k] + [m];
      ReplacementsAppend(ms[..k], m, sort);
      if sorted != m.classString {
        replacements := replacements + [Replacement(m.startPosition, m.startPosition + |m.classString|, sorted)];
      }
      k := k + 1;
    }
    assert ms[..k] == ms;
  }

  /** Recording one more class string appends its replacement, if any. */
  lemma {:induction false} ReplacementsAppend(fs: seq<Found>, f: Found, sort: string -> string)
    ensures Replacements(fs + [f], sort) == Replacements(fs, sort) + Replacements([f], sort)
  {
    if fs != [] {
      assert (fs + [f])[1..] == fs[1..] + [f];
      ReplacementsAppend(fs[1..], f, sort);
    }
  }

  /** The splicing loop of `processText`: applies the replacements one after another. */
  method ApplyReplacements(text: string, replacements: seq<Replacement>) returns (result: string)
    ensures result == Fold(text, replacements)
  {
    result := text;
    var n := 0;
    while n < |replacements|
      invariant 0 <= n <= |replacements|
      invariant Fold(result, replacements[n..]) == Fold(text, replacements)
    {
      var r := replacements[n];
      assert replacements[n..][1..] == replacements[n + 1..];
      result := Slice(result, 0, r.start) + r.replacement + Slice(result, r.end, |result|);
      n := n + 1;
    }
  }

  /**
   * The `matches` array of `processText` after `sort`: the found class
   * strings in order of descending offset.
   */
  method SortedCopy(matches: seq<Found>) returns (a: array<Found>)
    requires NonOverlapping(matches) && forall f :: f in matches ==> f.classString != []
    ensures fresh(a) && a[..] == SortBy(matches, StartDesc)
  {
    a := new Found[|matches|](k requires 0 <= k < |matches| => matches[k]);
    assert a[..] == matches;
    SortByDescendingStart(a);
    SortedArrayIsSortBy(a[..], matches);
  }

  /**
   * `processText`: returns the text unchanged when it carries the
   * ignore-all marker or nothing is found; otherwise collects the
   * unignored class strings of every matcher, sorts them by descending
   * offset, records a replacement for each one the sorter changes, and
   * splices the replacements in, in that order.
   */
  method ProcessText(text: string, langConfig: LangConfig, exec: (Regex, string) -> seq<RegexMatch>,
                     sort: string -> string) returns (result: string)
    requires ExecWellFormed(exec)
    requires !Contains(text, IgnoreAll) ==> NonOverlapping(Collect(text, BuildMatchers(langConfig), exec))
    ensures result == Rewrite(text, langConfig, exec, sort)
    ensures Contains(text, IgnoreAll) ==> result == text
    ensures Collect(text, BuildMatchers(langConfig), exec) == [] ==> result == text
  {
    if Contains(text, IgnoreAll) {
      return text;
    }

    var matchers := BuildMatchers(langConfig);
    var matches := CollectMatches(text, matchers, exec);

    if |matches| == 0 {
      return text;
    }

    CollectLocated(text, matchers, exec);
    var a := SortedCopy(matches);
    var replacements := BuildReplacements(a, sort);
    result := ApplyReplacements(text, replacements);
  }
}
