/**
 * The class-string sorter of src/index.ts: `sortClassString` and the pure
 * helpers it is built from (`removeDuplicates`, `sortClassArray`).
 */
module ClassSort {
  import opened Wrappers
  import opened Seqs
  import opened Text
  import opened Types

  /** `filter(el => el !== '')`: drops the empty tokens, keeps the rest in order. */
  function NonEmptyTokens(xs: seq<string>): seq<string> {
    if xs == [] then []
    else if xs[0] == [] then NonEmptyTokens(xs[1..])
    else [xs[0]] + NonEmptyTokens(xs[1..])
  }

  /**
   * Filtering keeps exactly the non-empty tokens and loses no text: the
   * concatenation of the pieces is unchanged.
   */
  lemma {:induction false} NonEmptyTokensSpec(xs: seq<string>)
    ensures forall t :: t in NonEmptyTokens(xs) <==> t in xs && t != []
    ensures Concat(NonEmptyTokens(xs)) == Concat(xs)
  {
    if xs != [] {
      NonEmptyTokensSpec(xs[1..]);
      assert xs == [xs[0]] + xs[1..];
    }
  }

  /**
   * `[...new Set(xs)]`: one copy of each token, in the order of first
   * occurrence (a JavaScript Set iterates in insertion order).
   */
  function RemoveDuplicates(xs: seq<string>): seq<string> {
    if xs == [] then []
    else
      var r := RemoveDuplicates(xs[..|xs| - 1]);
      if xs[|xs| - 1] in r then r else r + [xs[|xs| - 1]]
  }

  /**
   * Removing duplicates leaves every token exactly once, keeps the set of
   * tokens, and orders them by their first occurrence in the input.
   */
  lemma {:induction false} RemoveDuplicatesSpec(xs: seq<string>)
    ensures var r := RemoveDuplicates(xs);
            NoDuplicates(r)
            && (forall t :: t in r <==> t in xs)
            && forall i, j :: 0 <= i < j < |r| ==> IndexOf(xs, r[i]) < IndexOf(xs, r[j])
  {
    if xs != [] {
      var init, x := xs[..|xs| - 1], xs[|xs| - 1];
      assert xs == init + [x];
      RemoveDuplicatesSpec(init);
      var r := RemoveDuplicates(init);
      forall y | y in init ensures IndexOf(xs, y) == IndexOf(init, y) {
        IndexOfAppend(init, x, y);
      }
      if x !in r {
        IndexOfAppend(init, x, x);
        var r' := r + [x];
        forall i, j | 0 <= i < j < |r'| ensures IndexOf(xs, r'[i]) < IndexOf(xs, r'[j]) {
          if j < |r| {
            assert r'[i] == r[i] && r'[j] == r[j];
          } else {
            assert r'[i] in init;
          }
        }
      }
    }
  }

  /** On tokens that are already unique, removing duplicates changes nothing. */
  lemma {:induction false} RemoveDuplicatesOfUnique(xs: seq<string>)
    requires NoDuplicates(xs)
    ensures RemoveDuplicates(xs) == xs
  {
    if xs != [] {
      var init := xs[..|xs| - 1];
      assert NoDuplicates(init);
      RemoveDuplicatesOfUnique(init);
      assert RemoveDuplicates(xs) == (if xs[|xs| - 1] in init then init else init + [xs[|xs| - 1]]);
      assert xs[|xs| - 1] !in init;
      assert xs == init + [xs[|xs| - 1]];
    }
  }

  /** The order list with the custom prefix put in front of every entry. */
  function PrefixOrder(order: seq<string>, prefix: string): (r: seq<string>)
    ensures |r| == |order|
    ensures forall i :: 0 <= i < |r| ==> r[i] == prefix + order[i]
  {
    if |prefix| > 0 then seq(|order|, i requires 0 <= i < |order| => prefix + order[i])
    else
      assert forall i :: 0 <= i < |order| ==> prefix + order[i] == order[i];
      order
  }

  /**
   * Prefixing the order list keeps every entry's position: a token that
   * carries the prefix sorts where its unprefixed name stands in the list.
   */
  lemma PrefixOrderIndex(order: seq<string>, prefix: string, name: string)
    ensures IndexOf(PrefixOrder(order, prefix), prefix + name) == IndexOf(order, name)
  {
    var p := PrefixOrder(order, prefix);
    var k := IndexOf(order, name);
    forall i | 0 <= i < |order| ensures (p[i] == prefix + name) == (order[i] == name) {
      if p[i] == prefix + name {
        assert order[i] == (prefix + order[i])[|prefix|..] == (prefix + name)[|prefix|..] == name;
      }
    }
    if k == -1 {
      assert prefix + name !in p;
    } else {
      assert prefix + name !in p[..k] by {
        forall i | 0 <= i < k ensures p[..k][i] != prefix + name {
          assert order[..k][i] == order[i];
        }
      }
      IndexOfFirst(p, prefix + name, k);
    }
  }

  /** The prefix goes on the order list only: a token without it is never in the list. */
  lemma UnprefixedTokenIsCustom(order: seq<string>, prefix: string, token: string)
    requires !StartsWith(token, prefix)
    ensures IndexOf(PrefixOrder(order, prefix), token) == -1
  {
  }

  /** The position of a token in the order list, the key of the known-token sort. */
  function IndexKey(order: seq<string>): string -> int {
    t => IndexOf(order, t)
  }

  /** Tokens absent from the order list, in their original relative order. */
  function Customs(xs: seq<string>, order: seq<string>): seq<string> {
    if xs == [] then []
    else if IndexOf(order, xs[0]) == -1 then [xs[0]] + Customs(xs[1..], order)
    else Customs(xs[1..], order)
  }

  /** Tokens present in the order list, in their original relative order. */
  function Knowns(xs: seq<string>, order: seq<string>): seq<string> {
    if xs == [] then []
    else if IndexOf(order, xs[0]) != -1 then [xs[0]] + Knowns(xs[1..], order)
    else Knowns(xs[1..], order)
  }

  /** A custom token is one the order list lacks; a known token is one it holds. */
  lemma {:induction false} CustomsKnownsMembers(xs: seq<string>, order: seq<string>)
    ensures forall t :: t in Customs(xs, order) <==> t in xs && t !in order
    ensures forall t :: t in Knowns(xs, order) <==> t in xs && t in order
  {
    if xs != [] {
      CustomsKnownsMembers(xs[1..], order);
      assert xs == [xs[0]] + xs[1..];
    }
  }

  /** The custom and known tokens partition the tokens: nothing added, nothing lost. */
  lemma {:induction false} CustomsKnownsPartition(xs: seq<string>, order: seq<string>)
    ensures multiset(Customs(xs, order)) + multiset(Knowns(xs, order)) == multiset(xs)
  {
    if xs != [] {
      CustomsKnownsPartition(xs[1..], order);
      assert xs == [xs[0]] + xs[1..];
    }
  }

  /** `k` holds exactly the known tokens, ascending by their position in the order list. */
  ghost predicate SortedKnowns(k: seq<string>, xs: seq<string>, order: seq<string>) {
    SortedBy(k, IndexKey(order)) && multiset(k) == multiset(Knowns(xs, order))
  }

  /**
   * What a sorted token list must look like: the custom tokens, in their
   * original relative order, first when `prepend` is set and last otherwise,
   * and around them the known tokens ascending by their order-list position.
   */
  ghost predicate IsArrangement(a: seq<string>, xs: seq<string>, order: seq<string>, prepend: bool) {
    var c := Customs(xs, order);
    |c| <= |a| &&
    if prepend then a[..|c|] == c && SortedKnowns(a[|c|..], xs, order)
    else a[|a| - |c|..] == c && SortedKnowns(a[..|a| - |c|], xs, order)
  }

  /** An arrangement is a permutation of the tokens. */
  lemma ArrangementIsPermutation(a: seq<string>, xs: seq<string>, order: seq<string>, prepend: bool)
    requires IsArrangement(a, xs, order, prepend)
    ensures multiset(a) == multiset(xs)
  {
    var c := Customs(xs, order);
    CustomsKnownsPartition(xs, order);
    if prepend {
      assert a == a[..|c|] + a[|c|..];
    } else {
      assert a == a[..|a| - |c|] + a[|a| - |c|..];
    }
  }

  /** The order-list position tells known tokens apart. */
  lemma KnownKeysDistinct(k: seq<string>, xs: seq<string>, order: seq<string>)
    requires SortedKnowns(k, xs, order)
    ensures forall x, y :: x in k && y in k && IndexKey(order)(x) == IndexKey(order)(y) ==> x == y
  {
    CustomsKnownsMembers(xs, order);
    forall x, y | x in k && y in k && IndexKey(order)(x) == IndexKey(order)(y) ensures x == y {
      assert x in multiset(Knowns(xs, order)) && y in multiset(Knowns(xs, order));
      assert order[IndexOf(order, x)] == x && order[IndexOf(order, y)] == y;
    }
  }

  /** There is only one arrangement of a token list: the sort is deterministic. */
  lemma ArrangementUnique(a: seq<string>, b: seq<string>, xs: seq<string>, order: seq<string>, prepend: bool)
    requires IsArrangement(a, xs, order, prepend) && IsArrangement(b, xs, order, prepend)
    ensures a == b
  {
    if prepend {
      CustomsFirstUnique(a, b, xs, order);
    } else {
      CustomsLastUnique(a, b, xs, order);
    }
  }

  /** Two arrangements with the custom tokens first are equal. */
  lemma CustomsFirstUnique(a: seq<string>, b: seq<string>, xs: seq<string>, order: seq<string>)
    requires IsArrangement(a, xs, order, true) && IsArrangement(b, xs, order, true)
    ensures a == b
  {
    var c := Customs(xs, order);
    KnownsUnique(a[|c|..], b[|c|..], xs, order);
    assert a == a[..|c|] + a[|c|..];
    assert b == b[..|c|] + b[|c|..];
  }

  /** Two arrangements with the custom tokens last are equal. */
  lemma CustomsLastUnique(a: seq<string>, b: seq<string>, xs: seq<string>, order: seq<string>)
    requires IsArrangement(a, xs, order, false) && IsArrangement(b, xs, order, false)
    ensures a == b
  {
    var c := Customs(xs, order);
    var ka, kb := a[..|a| - |c|], b[..|b| - |c|];
    KnownsUnique(ka, kb, xs, order);
    forall i | 0 <= i < |a| ensures a[i] == b[i] {
      if i < |ka| {
        assert a[i] == ka[i] && b[i] == kb[i];
      } else {
        assert a[i] == a[|a| - |c|..][i - |ka|] && b[i] == b[|b| - |c|..][i - |ka|];
      }
    }
  }

  /** Two sortings of the known tokens agree. */
  lemma KnownsUnique(ka: seq<string>, kb: seq<string>, xs: seq<string>, order: seq<string>)
    requires SortedKnowns(ka, xs, order) && SortedKnowns(kb, xs, order)
    ensures ka == kb
  {
    KnownKeysDistinct(ka, xs, order);
    SortedUnique(ka, kb, IndexKey(order));
  }

  /**
   * `sortClassArray`: custom tokens (those whose `indexOf` is -1) before or
   * after the known tokens, which are sorted by their order-list position.
   */
  function SortClassArray(xs: seq<string>, order: seq<string>, prepend: bool): (r: seq<string>)
    ensures IsArrangement(r, xs, order, prepend)
    ensures multiset(r) == multiset(xs)
  {
    var customs := Customs(xs, order);
    var known := SortBy(Knowns(xs, order), IndexKey(order));
    assert SortedKnowns(known, xs, order);
    if prepend then
      var r := customs + known;
      assert r[..|customs|] == customs && r[|customs|..] == known;
      ArrangementIsPermutation(r, xs, order, prepend);
      r
    else
      var r := known + customs;
      assert r[|r| - |customs|..] == customs && r[..|r| - |customs|] == known;
      ArrangementIsPermutation(r, xs, order, prepend);
      r
  }

  /** The separator is inferred as `.` exactly when the string holds no space character. */
  predicate InfersDotSeparator(classString: string) {
    ' ' !in classString
  }

  /** The pieces `split` yields, with the override pattern or the inferred separator. */
  function SplitClassString(classString: string, options: Options, splitBy: (Regex, string) -> seq<string>): seq<string> {
    match options.separator
    case Some(re) => splitBy(re, classString)
    case None =>
      if InfersDotSeparator(classString) then SplitAt(classString, '.')
      else SplitOnWhitespaceRuns(classString)
  }

  /** Dropping the empty tokens keeps the order of first occurrences of the others. */
  lemma {:induction false} NonEmptyTokensKeepOrder(xs: seq<string>, a: string, b: string)
    requires a in NonEmptyTokens(xs) && b in NonEmptyTokens(xs)
    requires IndexOf(NonEmptyTokens(xs), a) < IndexOf(NonEmptyTokens(xs), b)
    ensures IndexOf(xs, a) < IndexOf(xs, b)
  {
    NonEmptyTokensSpec(xs);
    var ne := NonEmptyTokens(xs);
    if xs[0] == [] {
      assert ne == NonEmptyTokens(xs[1..]);
      NonEmptyTokensKeepOrder(xs[1..], a, b);
    } else {
      assert ne == [xs[0]] + NonEmptyTokens(xs[1..]);
      if xs[0] != a && xs[0] != b {
        NonEmptyTokensSpec(xs[1..]);
        NonEmptyTokensKeepOrder(xs[1..], a, b);
      }
    }
  }

  /** The tokens to sort: split, empty tokens dropped, optionally deduplicated. */
  function ClassTokens(classString: string, options: Options, splitBy: (Regex, string) -> seq<string>): seq<string> {
    var tokens := NonEmptyTokens(SplitClassString(classString, options, splitBy));
    if options.shouldRemoveDuplicates then RemoveDuplicates(tokens) else tokens
  }

  /**
   * The tokens are the non-empty pieces of the split, never an empty token;
   * with `shouldRemoveDuplicates` each occurs once, in first-occurrence
   * order, and without it every piece keeps its multiplicity.
   */
  lemma ClassTokensSpec(classString: string, options: Options, splitBy: (Regex, string) -> seq<string>)
    ensures var pieces := SplitClassString(classString, options, splitBy);
            var r := ClassTokens(classString, options, splitBy);
            (forall t :: t in r <==> t in pieces && t != [])
            && (options.shouldRemoveDuplicates ==>
                  NoDuplicates(r)
                  && forall i, j :: 0 <= i < j < |r| ==> IndexOf(pieces, r[i]) < IndexOf(pieces, r[j]))
            && (!options.shouldRemoveDuplicates ==> r == NonEmptyTokens(pieces))
  {
    var pieces := SplitClassString(classString, options, splitBy);
    var tokens := NonEmptyTokens(pieces);
    NonEmptyTokensSpec(pieces);
    if options.shouldRemoveDuplicates {
      var r := RemoveDuplicates(tokens);
      RemoveDuplicatesSpec(tokens);
      forall i, j | 0 <= i < j < |r| ensures IndexOf(pieces, r[i]) < IndexOf(pieces, r[j]) {
        assert IndexOf(tokens, r[i]) < IndexOf(tokens, r[j]);
        NonEmptyTokensKeepOrder(pieces, r[i], r[j]);
      }
    }
  }

  /** The string the tokens are joined with: a non-empty override, else the inferred one. */
  function Joiner(classString: string, options: Options): string {
    match options.replacement
    case Some(rep) => if rep != [] then rep else if InfersDotSeparator(classString) then "." else " "
    case None => if InfersDotSeparator(classString) then "." else " "
  }

  /** The leading `.` restored in dot mode when the input began with one. */
  function LeadingDot(classString: string): string {
    if InfersDotSeparator(classString) && StartsWith(classString, ".") then "." else ""
  }

  /** With the inferred separator, an empty class string has no tokens. */
  lemma EmptyInputHasNoTokens(options: Options, splitBy: (Regex, string) -> seq<string>)
    requires options.separator.None?
    ensures ClassTokens([], options, splitBy) == []
  {
    assert SplitClassString([], options, splitBy) == [[]];
    assert NonEmptyTokens([[]]) == [];
  }

  /** The sorted tokens as the result string: joined, trimmed, behind a restored leading dot. */
  function Render(classString: string, options: Options, arranged: seq<string>): string {
    LeadingDot(classString) + Trim(Join(arranged, Joiner(classString, options)))
  }

  /** In dot mode, a leading `.` of the input is the first character of the result. */
  lemma RenderKeepsDot(classString: string, joined: string)
    requires InfersDotSeparator(classString) && StartsWith(classString, ".")
    ensures StartsWith(LeadingDot(classString) + Trim(joined), ".")
  {
    assert LeadingDot(classString) == ".";
    DotInFront(Trim(joined));
  }

  /** In whitespace mode, the result neither starts nor ends with whitespace. */
  lemma RenderTrimmed(classString: string, joined: string)
    requires !InfersDotSeparator(classString)
    ensures NoWhitespaceAtEnds(LeadingDot(classString) + Trim(joined))
  {
    assert LeadingDot(classString) == [];
    assert [] + Trim(joined) == Trim(joined);
  }

  /** A string behind a `.` starts with `.`. */
  lemma DotInFront(t: string)
    ensures StartsWith("." + t, ".")
  {
    assert ("." + t)[..1] == ".";
  }

  /**
   * The rendered unique arrangement of the tokens is the sorter's result:
   * an empty input without a separator override gives an empty result, a
   * leading dot in dot mode is kept, and in whitespace mode the result
   * neither starts nor ends with whitespace.
   */
  lemma RenderedArrangement(classString: string, sortOrder: seq<string>, options: Options,
                            splitBy: (Regex, string) -> seq<string>, arranged: seq<string>)
    requires arranged == SortClassArray(ClassTokens(classString, options, splitBy),
                                        PrefixOrder(sortOrder, options.customTailwindPrefix),
                                        options.shouldPrependCustomClasses)
    ensures IsArrangement(arranged, ClassTokens(classString, options, splitBy),
                          PrefixOrder(sortOrder, options.customTailwindPrefix),
                          options.shouldPrependCustomClasses)
    ensures options.separator.None? && classString == [] ==> Render(classString, options, arranged) == []
    ensures InfersDotSeparator(classString) && StartsWith(classString, ".")
            ==> StartsWith(Render(classString, options, arranged), ".")
    ensures !InfersDotSeparator(classString) ==> NoWhitespaceAtEnds(Render(classString, options, arranged))
  {
    var joined := Join(arranged, Joiner(classString, options));
    if InfersDotSeparator(classString) && StartsWith(classString, ".") {
      RenderKeepsDot(classString, joined);
    }
    if !InfersDotSeparator(classString) {
      RenderTrimmed(classString, joined);
    }
    if options.separator.None? && classString == [] {
      var tokens := ClassTokens(classString, options, splitBy);
      EmptyInputHasNoTokens(options, splitBy);
      assert |arranged| == |multiset(arranged)| == |multiset(tokens)| == 0;
      TrimUnchanged(Join(arranged, Joiner(classString, options)));
    }
  }

  /**
   * The rendered sort of `classString` with the order list `order`, the
   * default options and no prefix: what `sortClassString` returns, since
   * the arrangement it renders is unique.
   */
  function DefaultSort(classString: string, order: seq<string>, splitBy: (Regex, string) -> seq<string>): string {
    var options := Options(false, false, "", None, None);
    Render(classString, options,
           SortClassArray(ClassTokens(classString, options, splitBy), PrefixOrder(order, ""), false))
  }

  /**
   * Sorting is not idempotent, even with the default options. With the order
   * list `["a", "b"]`, `" b.a"` holds a space, so it splits on whitespace
   * into the one custom token `b.a` and comes back as `"b.a"`. That string
   * holds no space, so sorting it again splits on `.` into two known tokens
   * and gives `"a.b"`.
   */
  lemma SortTwiceDiffers(splitBy: (Regex, string) -> seq<string>)
    ensures DefaultSort(" b.a", ["a", "b"], splitBy) == "b.a"
    ensures DefaultSort("b.a", ["a", "b"], splitBy) == "a.b"
  {
    var options := Options(false, false, "", None, None);
    var order := ["a", "b"];
    PrefixOrderEmpty(order);
    SpacedTokens(splitBy);
    SpacedArrangement();
    SpacedRender();
    DottedTokens(splitBy);
    DottedArrangement();
    DottedRender();
  }

  /** No prefix leaves the order list as it is. */
  lemma PrefixOrderEmpty(order: seq<string>)
    ensures PrefixOrder(order, "") == order
  {
    var r := PrefixOrder(order, "");
    forall i | 0 <= i < |r| ensures r[i] == order[i] {
      assert [] + order[i] == order[i];
    }
  }

  /** A piece of a split that is not the separator joins the first piece of the rest. */
  lemma SplitAtStep(c: char, s: string, sep: char)
    requires c != sep
    ensures var r := SplitAt(s, sep);
            SplitAt([c] + s, sep) == [[c] + r[0]] + r[1..]
  {
    assert ([c] + s)[1..] == s;
  }

  /** A lone whitespace character in front of a word leaves an empty first piece. */
  lemma SpaceStep(c: char, s: string)
    requires IsWhitespace(c) && s != [] && '!' <= s[0] <= '~'
    ensures SplitOnWhitespaceRuns([c] + s) == [[]] + SplitOnWhitespaceRuns(s)
  {
    VisibleAsciiNotWhitespace(s[0]);
    assert ([c] + s)[1..] == s && ([c] + s)[1] == s[0];
  }

  /** A string of visible ASCII characters is one piece of the whitespace split. */
  lemma {:induction false} RunsOfWord(w: string)
    requires forall k :: 0 <= k < |w| ==> '!' <= w[k] <= '~'
    ensures SplitOnWhitespaceRuns(w) == [w]
  {
    if w != [] {
      VisibleAsciiNotWhitespace(w[0]);
      RunsOfWord(w[1..]);
      assert [w[0]] + w[1..] == w;
    }
  }

  /** `" b.a"` splits on whitespace into an empty piece and `b.a`. */
  lemma SpacedPieces()
    ensures SplitOnWhitespaceRuns(" b.a") == [[], "b.a"]
  {
    assert IsWhitespace(' ');
    SpaceStep(' ', "b.a");
    RunsOfWord("b.a");
    assert [' '] + "b.a" == " b.a";
  }

  /** With the default options, `" b.a"` has the one token `b.a`. */
  lemma SpacedTokens(splitBy: (Regex, string) -> seq<string>)
    ensures ClassTokens(" b.a", Options(false, false, "", None, None), splitBy) == ["b.a"]
  {
    var options := Options(false, false, "", None, None);
    assert !InfersDotSeparator(" b.a") by {
      assert " b.a"[0] == ' ';
    }
    SpacedPieces();
    assert NonEmptyTokens([[], "b.a"]) == ["b.a"] by {
      assert [[], "b.a"][1..] == ["b.a"];
      assert ["b.a"][1..] == [];
    }
  }

  /** With the default options, `"b.a"` has the tokens `b` and `a`, in that order. */
  lemma DottedTokens(splitBy: (Regex, string) -> seq<string>)
    ensures ClassTokens("b.a", Options(false, false, "", None, None), splitBy) == ["b", "a"]
  {
    var options := Options(false, false, "", None, None);
    assert SplitClassString("b.a", options, splitBy) == SplitAt("b.a", '.');
    var r0 := SplitAt("a", '.');
    assert r0 == ["a"] by {
      SplitAtStep('a', [], '.');
      assert ['a'] + [] == "a";
    }
    var r1 := SplitAt(".a", '.');
    assert r1 == [[], "a"] by {
      assert ".a"[1..] == "a";
    }
    var r2 := SplitAt("b.a", '.');
    assert r2 == ["b", "a"] by {
      SplitAtStep('b', ".a", '.');
      assert ['b'] + r1[0] == "b" && r1[1..] == ["a"];
    }
    assert NonEmptyTokens(["b", "a"]) == ["b", "a"] by {
      assert ["b", "a"][1..] == ["a"];
      assert NonEmptyTokens(["a"]) == ["a"];
    }
  }

  /** `b.a` is custom under the order list `["a", "b"]`, so it stays where it is. */
  lemma SpacedArrangement()
    ensures SortClassArray(["b.a"], ["a", "b"], false) == ["b.a"]
  {
    var order := ["a", "b"];
    assert IndexOf(order, "b.a") == -1;
    assert Customs(["b.a"], order) == ["b.a"] && Knowns(["b.a"], order) == [];
  }

  /** `b` and `a` are known under the order list `["a", "b"]`, so they swap. */
  lemma DottedArrangement()
    ensures SortClassArray(["b", "a"], ["a", "b"], false) == ["a", "b"]
  {
    var order := ["a", "b"];
    var tokens := ["b", "a"];
    assert IndexOf(order, "a") == 0 && IndexOf(order, "b") == 1;
    assert tokens[1..] == ["a"];
    assert Customs(tokens, order) == [];
    assert Knowns(tokens, order) == tokens;
    var key := IndexKey(order);
    assert tokens[..1] == ["b"] && ["b"][..0] == [];
    assert SortBy(["b"], key) == ["b"];
    assert key("a") < key("b");
    assert SortBy(tokens, key) == ["a", "b"];
  }

  /** In whitespace mode, the one token `b.a` renders as itself. */
  lemma SpacedRender()
    ensures Render(" b.a", Options(false, false, "", None, None), ["b.a"]) == "b.a"
  {
    assert " b.a"[0] == ' ';
    assert Joiner(" b.a", Options(false, false, "", None, None)) == " ";
    assert LeadingDot(" b.a") == [];
    VisibleAsciiNotWhitespace('b');
    VisibleAsciiNotWhitespace('a');
    TrimUnchanged("b.a");
  }

  /** In dot mode, `a` and `b` render as `a.b`. */
  lemma DottedRender()
    ensures Render("b.a", Options(false, false, "", None, None), ["a", "b"]) == "a.b"
  {
    assert InfersDotSeparator("b.a") by {
      forall i | 0 <= i < 3 ensures "b.a"[i] != ' ' {
        assert "b.a"[i] in {'b', '.', 'a'};
      }
    }
    assert !StartsWith("b.a", ".") by {
      assert "b.a"[..1] == "b";
    }
    assert Joiner("b.a", Options(false, false, "", None, None)) == ".";
    assert LeadingDot("b.a") == [];
    assert ["a", "b"][1..] == ["b"] && Join(["b"], ".") == "b";
    assert "a" + "." + "b" == "a.b";
    assert Join(["a", "b"], ".") == "a.b";
    VisibleAsciiNotWhitespace('a');
    VisibleAsciiNotWhitespace('b');
    TrimUnchanged("a.b");
  }

  /**
   * `sortClassString`: the result is the trimmed join of the one arrangement
   * of the input's tokens under the prefixed order list, behind a restored
   * leading dot. An empty input gives an empty result, and in whitespace
   * mode the result neither starts nor ends with whitespace.
   */
  method SortClassString(classString: string, sortOrder: seq<string>, options: Options,
                         splitBy: (Regex, string) -> seq<string>) returns (r: string)
    ensures exists arranged ::
              IsArrangement(arranged, ClassTokens(classString, options, splitBy),
                            PrefixOrder(sortOrder, options.customTailwindPrefix),
                            options.shouldPrependCustomClasses)
              && r == Render(classString, options, arranged)
    ensures options.separator.None? && classString == [] ==> r == []
    ensures InfersDotSeparator(classString) && StartsWith(classString, ".") ==> StartsWith(r, ".")
    ensures !InfersDotSeparator(classString) ==> NoWhitespaceAtEnds(r)
  {
    var dotMode := InfersDotSeparator(classString);
    var defaultReplacement := if dotMode then "." else " ";

    var classArray := match options.separator
      case Some(re) => splitBy(re, classString)
      case None => if dotMode then SplitAt(classString, '.') else SplitOnWhitespaceRuns(classString);
    classArray := NonEmptyTokens(classArray);
    if options.shouldRemoveDuplicates {
      classArray := RemoveDuplicates(classArray);
    }
    assert classArray == ClassTokens(classString, options, splitBy);

    var sortOrderClone := PrefixOrder(sortOrder, options.customTailwindPrefix);
    classArray := SortClassArray(classArray, sortOrderClone, options.shouldPrependCustomClasses);

    var joiner := match options.replacement
      case Some(rep) => if rep != [] then rep else defaultReplacement
      case None => defaultReplacement;
    assert joiner == Joiner(classString, options);
    var result := Trim(Join(classArray, joiner));
    if dotMode && StartsWith(classString, ".") {
      r := "." + result;
      assert LeadingDot(classString) == ".";
    } else {
      r := result;
      assert LeadingDot(classString) == "";
    }
    RenderedArrangement(classString, sortOrder, options, splitBy, classArray);
  }
}
