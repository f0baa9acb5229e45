/**
 * `buildMatcher` and `buildMatchers` of src/index.ts: the total case
 * analysis that turns a language configuration into matchers.
 */
module MatcherBuilder {
  import opened Wrappers
  import opened Types

  /** `isArrayOfStrings`: a list whose every item is a string; the empty list is one. */
  predicate IsArrayOfStrings(v: LangConfig) {
    v.List? && forall i :: 0 <= i < |v.items| ==> v.items[i].Pattern?
  }

  /** `value.map(v => new RegExp(v, flags))` over the items of a string list. */
  function CompileEach(items: seq<LangConfig>, flags: string): (r: seq<Regex>)
    requires forall i :: 0 <= i < |items| ==> items[i].Pattern?
    ensures |r| == |items|
    ensures forall i :: 0 <= i < |r| ==> r[i] == Regex(items[i].source, flags)
  {
    if items == [] then []
    else [Regex(items[0].source, flags)] + CompileEach(items[1..], flags)
  }

  /**
   * The patterns of a configuration object's `regex` field: one for a
   * string, one per item for a string list, none for anything else.
   */
  function RegexField(rx: LangConfig): (r: seq<Regex>)
    ensures rx.Pattern? ==> r == [Regex(rx.source, "gi")]
    ensures IsArrayOfStrings(rx) ==> r == CompileEach(rx.items, "gi")
    ensures !rx.Pattern? && !IsArrayOfStrings(rx) ==> r == []
  {
    if rx.Pattern? then [Regex(rx.source, "gi")]
    else if IsArrayOfStrings(rx) then CompileEach(rx.items, "gi")
    else []
  }

  /**
   * `buildMatcher`: a string is one case-insensitive global pattern, a
   * string list one pattern per item in the same order, `undefined` no
   * pattern. Anything else is read as an object: its `regex` field gives
   * the patterns, its `separator` becomes a global pattern, and an empty or
   * absent `replacement` falls back to the separator text. A list that is
   * not all strings has none of these fields.
   */
  function BuildMatcher(v: LangConfig): (r: Matcher)
    ensures v.Pattern? ==> r == Matcher([Regex(v.source, "gi")], None, None)
    ensures IsArrayOfStrings(v) ==>
              r.separator.None? && r.replacement.None? && |r.regex| == |v.items|
              && forall i :: 0 <= i < |v.items| ==> r.regex[i] == Regex(v.items[i].source, "gi")
    ensures v.Undefined? || (v.List? && !IsArrayOfStrings(v)) ==> r == Matcher([], None, None)
    ensures v.Object? ==>
              r.regex == RegexField(v.regex)
              && (r.separator.Some? <==> v.separator.Some?)
              && (v.separator.Some? ==> r.separator.value == Regex(v.separator.value, "g"))
              && (match v.replacement
                  case Some(rep) => r.replacement == if rep != [] then v.replacement else v.separator
                  case None => r.replacement == v.separator)
  {
    match v
    case Pattern(s) => Matcher([Regex(s, "gi")], None, None)
    case Undefined => Matcher([], None, None)
    case List(items) =>
      if IsArrayOfStrings(v) then Matcher(CompileEach(items, "gi"), None, None)
      else Matcher([], None, None)
    case Object(rx, sep, rep) =>
      var separator := match sep
        case Some(s) => Some(Regex(s, "g"))
        case None => None;
      var replacement := match rep
        case Some(t) => if t != [] then rep else sep
        case None => sep;
      Matcher(RegexField(rx), separator, replacement)
  }

  /**
   * `buildMatchers`: nothing for `undefined` or an empty list, one matcher
   * per element for a list that is not all strings, and otherwise the one
   * matcher the whole value describes.
   */
  function BuildMatchers(v: LangConfig): (r: seq<Matcher>)
    ensures v.Undefined? || v == List([]) ==> r == []
    ensures v.List? && v.items != [] && !IsArrayOfStrings(v) ==>
              |r| == |v.items| && forall i :: 0 <= i < |r| ==> r[i] == BuildMatcher(v.items[i])
    ensures (IsArrayOfStrings(v) && v.items != []) || v.Pattern? || v.Object? ==> r == [BuildMatcher(v)]
  {
    match v
    case Undefined => []
    case List(items) =>
      if items == [] then []
      else if !IsArrayOfStrings(v) then seq(|items|, i requires 0 <= i < |items| => BuildMatcher(items[i]))
      else [BuildMatcher(v)]
    case _ => [BuildMatcher(v)]
  }

  /** `s` is written somewhere in the configuration as a pattern string. */
  ghost predicate Mentions(v: LangConfig, s: string) {
    match v
    case Undefined => false
    case Pattern(p) => p == s
    case List(items) => exists i :: 0 <= i < |items| && Mentions(items[i], s)
    case Object(rx, _, _) => Mentions(rx, s)
  }

  /** Every pattern of a matcher is case-insensitive and global, and its source is written in the configuration. */
  lemma BuildMatcherPatterns(v: LangConfig)
    ensures forall re :: re in BuildMatcher(v).regex ==> re.flags == "gi" && Mentions(v, re.source)
  {
    var r := BuildMatcher(v);
    forall re | re in r.regex ensures re.flags == "gi" && Mentions(v, re.source) {
      if v.List? {
        var i :| 0 <= i < |r.regex| && r.regex[i] == re;
        assert Mentions(v.items[i], re.source);
      } else if v.Object? && IsArrayOfStrings(v.regex) {
        var i :| 0 <= i < |r.regex| && r.regex[i] == re;
        assert Mentions(v.regex.items[i], re.source);
      }
    }
  }

  /**
   * Every pattern `buildMatchers` produces, in any matcher, is
   * case-insensitive and global, and its source is written in the
   * configuration: no pattern is invented.
   */
  lemma BuildMatchersPatterns(v: LangConfig)
    ensures forall m, re :: m in BuildMatchers(v) && re in m.regex ==> re.flags == "gi" && Mentions(v, re.source)
  {
    var r := BuildMatchers(v);
    forall m, re | m in r && re in m.regex ensures re.flags == "gi" && Mentions(v, re.source) {
      if v.List? && v.items != [] && !IsArrayOfStrings(v) {
        var i :| 0 <= i < |r| && r[i] == m;
        BuildMatcherPatterns(v.items[i]);
        assert Mentions(v.items[i], re.source);
      } else {
        BuildMatcherPatterns(v);
      }
    }
  }
}
