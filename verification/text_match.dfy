/**
 * `getTextMatch` of src/index.ts: nested matching. The first pattern finds
 * its matches left to right; each match's first non-empty capture group is
 * the value, which is reported with its absolute offset or searched again
 * with the remaining patterns.
 *
 * What a pattern matches is abstract: `exec` gives, for a pattern and a
 * text, the matches that repeated `RegExp.prototype.exec` calls would
 * return, and the model walks them with an explicit cursor.
 */
module TextMatch {
  import opened Wrappers
  import opened Text
  import opened Types

  /** One `exec` result: where the match starts, the matched text, and capture groups 1, 2, …. */
  datatype RegexMatch = RegexMatch(index: nat, full: string, groups: seq<Option<string>>)

  /** A value the callback reports, with its absolute offset. */
  datatype Report = Report(value: string, position: int)

  /** A capture group that took part in the match with a non-empty text: JavaScript truthiness. */
  predicate IsValue(g: Option<string>) {
    g.Some? && g.value != []
  }

  /** `findIndex` over the capture groups: the first truthy one, or -1. */
  function FindValueIndex(groups: seq<Option<string>>): (r: int)
    ensures -1 <= r < |groups|
    ensures r == -1 <==> forall i :: 0 <= i < |groups| ==> !IsValue(groups[i])
    ensures r != -1 ==> IsValue(groups[r]) && forall i :: 0 <= i < r ==> !IsValue(groups[i])
  {
    if groups == [] then -1
    else if IsValue(groups[0]) then 0
    else
      var k := FindValueIndex(groups[1..]);
      if k == -1 then -1 else k + 1
  }

  /** Some capture group of the match is non-empty. */
  predicate HasValue(m: RegexMatch) {
    FindValueIndex(m.groups) != -1
  }

  /** The value of a match: its first non-empty capture group. */
  function MatchValue(m: RegexMatch): (v: string)
    requires HasValue(m)
    ensures v != []
    ensures exists i :: 0 <= i < |m.groups| && m.groups[i] == Some(v)
                        && forall j :: 0 <= j < i ==> !IsValue(m.groups[j])
  {
    var i := FindValueIndex(m.groups);
    assert m.groups[i] == Some(m.groups[i].value);
    m.groups[i].value
  }

  /**
   * A match as a regular-expression engine produces it: the matched text
   * lies in the searched text at the match index, and the value is a
   * non-empty part of the matched text.
   */
  predicate WellFormedMatch(text: string, m: RegexMatch) {
    m.index + |m.full| <= |text| && text[m.index..m.index + |m.full|] == m.full
    && HasValue(m) && Contains(m.full, MatchValue(m))
  }

  /** Well-formed matches, each starting after the previous one ends. */
  predicate WellFormedMatches(text: string, ms: seq<RegexMatch>) {
    (forall k :: 0 <= k < |ms| ==> WellFormedMatch(text, ms[k]))
    && forall k :: 0 < k < |ms| ==> ms[k - 1].index + |ms[k - 1].full| <= ms[k].index
  }

  /** The engine returns well-formed, left-to-right matches for every pattern and text. */
  ghost predicate ExecWellFormed(exec: (Regex, string) -> seq<RegexMatch>) {
    forall re, t :: WellFormedMatches(t, exec(re, t))
  }

  /** The absolute offset of a match's value: the last place it occurs in the matched text. */
  function ValuePosition(m: RegexMatch, startPosition: int): int
    requires HasValue(m)
  {
    startPosition + m.index + LastIndexOf(m.full, MatchValue(m))
  }

  /** All reports of nested matching with `regexes`, in callback order. */
  function Reports(regexes: seq<Regex>, text: string, exec: (Regex, string) -> seq<RegexMatch>,
                   startPosition: int): seq<Report>
    requires ExecWellFormed(exec)
    decreases |regexes|, 1, 0
  {
    if |regexes| == 0 then []
    else MatchReports(regexes, text, exec, startPosition, exec(regexes[0], text))
  }

  /** The reports of the first pattern's matches `ms`, each reported or searched further. */
  function MatchReports(regexes: seq<Regex>, text: string, exec: (Regex, string) -> seq<RegexMatch>,
                        startPosition: int, ms: seq<RegexMatch>): seq<Report>
    requires ExecWellFormed(exec) && |regexes| >= 1
    requires forall k :: 0 <= k < |ms| ==> WellFormedMatch(text, ms[k])
    decreases |regexes|, 0, |ms|
  {
    if ms == [] then []
    else
      var m := ms[|ms| - 1];
      assert WellFormedMatch(text, m);
      var value, position := MatchValue(m), ValuePosition(m, startPosition);
      MatchReports(regexes, text, exec, startPosition, ms[..|ms| - 1])
      + if |regexes| == 1 then [Report(value, position)]
        else Reports(regexes[1..], value, exec, position)
  }

  /**
   * `getTextMatch`: walks the first pattern's matches with a cursor and,
   * for each, reports the value at its absolute offset (last pattern) or
   * recurses into the value with the remaining patterns. The callback calls
   * are the returned reports, in order. With no pattern nothing is reported.
   */
  method GetTextMatch(regexes: seq<Regex>, text: string, exec: (Regex, string) -> seq<RegexMatch>,
                      startPosition: int) returns (reports: seq<Report>)
    requires ExecWellFormed(exec)
    ensures reports == Reports(regexes, text, exec, startPosition)
    ensures |regexes| == 0 ==> reports == []
    decreases |regexes|
  {
    reports := [];
    if |regexes| >= 1 {
      var matches := exec(regexes[0], text);
      var cursor := 0;
      while cursor < |matches|
        invariant 0 <= cursor <= |matches|
        invariant reports == MatchReports(regexes, text, exec, startPosition, matches[..cursor])
      {
        var wrapper := matches[cursor];
        assert WellFormedMatch(text, wrapper);
        var valueMatchIndex := FindValueIndex(wrapper.groups);
        var valueMatch := wrapper.groups[valueMatchIndex].value;
        var newStartPosition := startPosition + wrapper.index + LastIndexOf(wrapper.full, valueMatch);
        assert valueMatch == MatchValue(wrapper) && newStartPosition == ValuePosition(wrapper, startPosition);
        MatchReportsStep(regexes, text, exec, startPosition, matches, cursor);
        if |regexes| == 1 {
          reports := reports + [Report(valueMatch, newStartPosition)];
        } else {
          var inner := GetTextMatch(regexes[1..], valueMatch, exec, newStartPosition);
          reports := reports + inner;
        }
        cursor := cursor + 1;
      }
      assert matches[..cursor] == matches;
    }
  }

  /** One more match of the first pattern adds its report, or its nested reports, at the end. */
  lemma MatchReportsStep(regexes: seq<Regex>, text: string, exec: (Regex, string) -> seq<RegexMatch>,
                         startPosition: int, ms: seq<RegexMatch>, k: int)
    requires ExecWellFormed(exec) && |regexes| >= 1 && 0 <= k < |ms|
    requires forall i :: 0 <= i < |ms| ==> WellFormedMatch(text, ms[i])
    ensures WellFormedMatch(text, ms[k])
    ensures MatchReports(regexes, text, exec, startPosition, ms[..k + 1])
            == MatchReports(regexes, text, exec, startPosition, ms[..k])
               + if |regexes| == 1 then [Report(MatchValue(ms[k]), ValuePosition(ms[k], startPosition))]
                 else Reports(regexes[1..], MatchValue(ms[k]), exec, ValuePosition(ms[k], startPosition))
  {
    assert ms[..k + 1][..k] == ms[..k];
  }

  /** `doc` holds `text` at offset `start`. */
  predicate Located(doc: string, text: string, start: int) {
    0 <= start && start + |text| <= |doc| && doc[start..start + |text|] == text
  }

  /** Every report is a non-empty value standing at its reported offset in `doc`. */
  predicate AllLocated(doc: string, reports: seq<Report>) {
    forall k :: 0 <= k < |reports| ==> reports[k].value != [] && Located(doc, reports[k].value, reports[k].position)
  }

  /** A match's value stands at its absolute offset in any document that holds the searched text. */
  lemma ValueLocated(doc: string, text: string, start: int, m: RegexMatch)
    requires Located(doc, text, start) && WellFormedMatch(text, m)
    ensures Located(doc, MatchValue(m), ValuePosition(m, start))
  {
    var v := MatchValue(m);
    var j := LastIndexOf(m.full, v);
    assert OccursAt(m.full, v, j);
    OccursWithin(doc, m.full, start + m.index, v, j) by {
      WithinLocated(doc, text, start, m.full, m.index);
    }
  }

  /** A part of a located text is located at the sum of the offsets. */
  lemma WithinLocated(doc: string, text: string, start: int, part: string, i: int)
    requires Located(doc, text, start) && OccursAt(text, part, i)
    ensures Located(doc, part, start + i)
  {
    OccursWithin(doc, text, start, part, i);
  }

  /** An occurrence inside an occurrence is an occurrence at the sum of the offsets. */
  lemma OccursWithin(doc: string, text: string, start: int, part: string, i: int)
    requires 0 <= start && start + |text| <= |doc| && doc[start..start + |text|] == text
    requires OccursAt(text, part, i)
    ensures Located(doc, part, start + i)
  {
    forall k | 0 <= k < |part| ensures doc[start + i + k] == part[k] {
      assert part[k] == text[i + k];
      assert text[i + k] == doc[start..start + |text|][i + k];
    }
  }

  /**
   * Offsets are exact, under nesting too: when `doc` holds `text` at
   * `start`, every reported value stands at its reported offset in `doc`.
   */
  lemma {:induction false} ReportsLocated(doc: string, regexes: seq<Regex>, text: string,
                                          exec: (Regex, string) -> seq<RegexMatch>, start: int)
    requires ExecWellFormed(exec) && Located(doc, text, start)
    ensures AllLocated(doc, Reports(regexes, text, exec, start))
    decreases |regexes|, 1, 0
  {
    if |regexes| > 0 {
      var ms := exec(regexes[0], text);
      assert WellFormedMatches(text, ms);
      MatchReportsLocated(doc, regexes, text, exec, start, ms);
    }
  }

  /** The reports of a prefix of the first pattern's matches are located. */
  lemma {:induction false} MatchReportsLocated(doc: string, regexes: seq<Regex>, text: string,
                                               exec: (Regex, string) -> seq<RegexMatch>, start: int,
                                               ms: seq<RegexMatch>)
    requires ExecWellFormed(exec) && |regexes| >= 1 && Located(doc, text, start)
    requires forall k :: 0 <= k < |ms| ==> WellFormedMatch(text, ms[k])
    ensures AllLocated(doc, MatchReports(regexes, text, exec, start, ms))
    decreases |regexes|, 0, |ms|
  {
    if ms != [] {
      var m := ms[|ms| - 1];
      var init := ms[..|ms| - 1];
      MatchReportsLocated(doc, regexes, text, exec, start, init);
      ValueLocated(doc, text, start, m);
      if |regexes| > 1 {
        ReportsLocated(doc, regexes[1..], MatchValue(m), exec, ValuePosition(m, start));
      }
      AllLocatedAppend(doc, MatchReports(regexes, text, exec, start, init),
                       if |regexes| == 1 then [Report(MatchValue(m), ValuePosition(m, start))]
                       else Reports(regexes[1..], MatchValue(m), exec, ValuePosition(m, start)));
    }
  }

  /** Located reports stay located when concatenated. */
  lemma AllLocatedAppend(doc: string, a: seq<Report>, b: seq<Report>)
    requires AllLocated(doc, a) && AllLocated(doc, b)
    ensures AllLocated(doc, a + b)
  {
    forall k | 0 <= k < |a + b|
      ensures (a + b)[k].value != [] && Located(doc, (a + b)[k].value, (a + b)[k].position)
    {
      if k >= |a| {
        assert (a + b)[k] == b[k - |a|];
      }
    }
  }

  /**
   * With a single pattern there is one report per match, in match order:
   * the match's first non-empty capture group at its absolute offset.
   */
  lemma {:induction false} SinglePatternReports(regex: Regex, text: string,
                                                exec: (Regex, string) -> seq<RegexMatch>, start: int,
                                                ms: seq<RegexMatch>)
    requires ExecWellFormed(exec)
    requires forall k :: 0 <= k < |ms| ==> WellFormedMatch(text, ms[k])
    ensures var r := MatchReports([regex], text, exec, start, ms);
            |r| == |ms|
            && forall k :: 0 <= k < |ms| ==> r[k] == Report(MatchValue(ms[k]), ValuePosition(ms[k], start))
  {
    if ms != [] {
      var init, m := ms[..|ms| - 1], ms[|ms| - 1];
      SinglePatternReports(regex, text, exec, start, init);
      var r0 := MatchReports([regex], text, exec, start, init);
      assert WellFormedMatch(text, m);
      assert MatchReports([regex], text, exec, start, ms) == r0 + [Report(MatchValue(m), ValuePosition(m, start))];
      forall k | 0 <= k < |init| ensures ms[k] == init[k] { }
    }
  }

  /** Where the first pattern finds nothing, nothing is reported. */
  lemma NoMatchNoReports(regexes: seq<Regex>, text: string, exec: (Regex, string) -> seq<RegexMatch>, start: int)
    requires ExecWellFormed(exec) && |regexes| >= 1 && exec(regexes[0], text) == []
    ensures Reports(regexes, text, exec, start) == []
  {
  }
}
