# tailwind-sort: a verified model of the class sorter and the rewriter

tailwind-sort finds Tailwind CSS class strings in source text and rewrites
each one with its classes in canonical order. This project models its two
pieces of text logic in Dafny and proves what they promise.

- **The class-string engine of `src/index.ts`** (module `ClassSort`):
  - `sortClassString` picks a separator: whitespace runs when the string holds a space, `.` otherwise.
  - It splits the string, drops empty tokens, and can remove duplicates.
  - It prefixes the order list and partitions the tokens into known and custom ones.
  - Known tokens are sorted by their order-list position. Custom tokens keep their relative order, before or after the known ones.
  - It joins, trims, and restores a leading `.`.
- **Matcher building** (module `MatcherBuilder`): `buildMatcher` and `buildMatchers` turn the union-typed language configuration into matchers. `isArrayOfStrings` is the predicate `MatcherBuilder.IsArrayOfStrings`, which both contracts use.
- **`getTextMatch`** (module `TextMatch`): nested matching with absolute offsets. A regular expression is abstract: a parameter `exec` gives, for a pattern and a text, the left-to-right matches that repeated `exec` calls return. The loop walks them with an explicit cursor. The callback calls are returned as a sequence of reports.
- **`processText` of `src/processor.ts`** (module `Processor`):
  - It honours the ignore-all and per-match ignore markers.
  - It collects the matches into a sequence and copies them into an array.
  - It insertion-sorts that array in place by descending offset.
  - It records a replacement for each class string the sorter changes.
  - It splices the replacements in, one after another.
  - The sorter is a parameter `sort: string -> string`.

Supporting modules:
- `Wrappers`: `Option`.
- `Seqs`: `indexOf`, duplicate-freedom, and the stable key sort that `Array.prototype.sort` performs.
- `Text`: the JavaScript string primitives (`\s`, `includes`, `lastIndexOf`, `trim`, `join`, `split`, `slice`).
- `Types`: the shapes of `src/types.ts` as datatypes.

`processText` calls `sortClassString(match.classString, options)` with two arguments (src/processor.ts:48). `sortClassString` in src/index.ts:11-15 takes three parameters, and the tests expect the order to come from an external sorter. The model therefore gives the rewriter its sorter as a parameter. `ClassSort.SortClassString` models the three-parameter function as written.

## Model

| member | source | states |
|---|---|---|
| Seqs.IndexOf | src/index.ts:56-62 | `indexOf` gives -1 exactly when the token is absent; otherwise it gives the first position holding it |
| Seqs.SortBy | src/index.ts:59-60 | the key sort returns a permutation of its input in non-decreasing key order |
| Seqs.SortedUnique | src/index.ts:59-60 | when the key tells elements apart, there is exactly one sorted permutation, so the comparator sort is deterministic |
| Text.LastIndexOf | src/index.ts:150 | `lastIndexOf` gives -1 exactly when the value does not occur; otherwise it gives an occurrence with none after it |
| Text.Trim | src/index.ts:39 | `trim` leaves a substring surrounded only by whitespace, and that substring neither starts nor ends with whitespace |
| Text.SplitAt | src/index.ts:17-20 | `split('.')` yields at least one piece, and no piece contains the separator |
| Text.SplitAtJoin | src/index.ts:17-20 | joining the `.` pieces with `.` gives the class string back |
| Text.SplitOnWhitespaceRuns | src/index.ts:17-20 | `split(/\s+/)` yields at least one piece, and no piece contains whitespace |
| Text.WhitespaceSplitKeepsText | src/index.ts:17-20 | the whitespace split loses only the whitespace: its pieces concatenate to the string without whitespace |
| Text.WhitespaceSplitRoundTrip | src/index.ts:17-20 | `split(/\s+/)` cuts exactly at the maximal whitespace runs: the pieces with the runs (`WhitespaceRuns`) put back between them give the string; every run is non-empty whitespace, every piece is whitespace-free, every interior piece is non-empty, and the first piece is empty exactly when the string starts with whitespace |
| Text.Join | src/index.ts:39 | `join` of no tokens is `""` and of one token is that token; `SplitAtJoin` proves it inverts `split('.')` |
| Text.Contains | src/processor.ts:18 | `includes`: some position holds the value; `UnignoredMembers` and `ProcessText` state what it decides |
| Text.StartsWith | src/index.ts:40 | `startsWith`: the string's prefix of the value's length is the value; `RenderKeepsDot` uses it for the restored `.` |
| Text.Slice | src/processor.ts:62 | `slice` over an in-range span is that substring, and an end past the string means "to the end" |
| ClassSort.NonEmptyTokens | src/index.ts:22 | `filter(el => el !== '')`; its contract is `NonEmptyTokensSpec` and `NonEmptyTokensKeepOrder` |
| ClassSort.NonEmptyTokensSpec | src/index.ts:22 | the filter keeps exactly the non-empty tokens and loses no text |
| ClassSort.NonEmptyTokensKeepOrder | src/index.ts:22 | the filter keeps the first-occurrence order of the tokens it keeps |
| ClassSort.RemoveDuplicates | src/index.ts:66-68 | `removeDuplicates`; its contract is `RemoveDuplicatesSpec` and `RemoveDuplicatesOfUnique` |
| ClassSort.RemoveDuplicatesSpec | src/index.ts:66-68 | `[...new Set(xs)]` is duplicate-free, has the same members, and is in first-occurrence order |
| ClassSort.RemoveDuplicatesOfUnique | src/index.ts:66-68 | removing duplicates from a duplicate-free list changes nothing |
| ClassSort.PrefixOrder | src/index.ts:29-31 | the prefixed order list has the same length, and entry i is the prefix followed by entry i |
| ClassSort.PrefixOrderIndex | src/index.ts:29-31 | a prefixed token has the order-list position of its unprefixed name |
| ClassSort.UnprefixedTokenIsCustom | src/index.ts:29-31 | the prefix goes on the order list only: a token without it is never found there |
| ClassSort.Customs | src/index.ts:55-57 | the tokens missing from the order list, in their original order; its contract is `CustomsKnownsMembers` and `CustomsKnownsPartition` |
| ClassSort.Knowns | src/index.ts:58-63 | the tokens on the order list, before sorting; its contract is `CustomsKnownsMembers` and `CustomsKnownsPartition` |
| ClassSort.CustomsKnownsMembers | src/index.ts:55-63 | custom tokens are exactly those missing from the order list; known tokens are exactly those in it |
| ClassSort.CustomsKnownsPartition | src/index.ts:54-64 | the custom and known filters partition the tokens as a multiset |
| ClassSort.ArrangementIsPermutation | src/index.ts:54-64 | any arrangement of customs and sorted knowns is a permutation of the tokens |
| ClassSort.ArrangementUnique | src/index.ts:54-64 | the arrangement of a token list is unique |
| ClassSort.SortClassArray | src/index.ts:50-64 | `sortClassArray` returns the arrangement and a permutation of its input. Customs keep their order, first if `shouldPrependCustomClasses` and last otherwise; knowns ascend by order-list position |
| ClassSort.ClassTokensSpec | src/index.ts:20-26 | the tokens are the non-empty split pieces. With duplicate removal they are unique and in first-occurrence order; without it every multiplicity is kept |
| ClassSort.EmptyInputHasNoTokens | src/index.ts:17-22 | with the inferred separator, an empty class string has no tokens |
| ClassSort.RenderKeepsDot | src/index.ts:39-47 | in dot mode a leading `.` of the input is restored as the first character of the result |
| ClassSort.RenderTrimmed | src/index.ts:39-47 | in whitespace mode the result neither starts nor ends with whitespace |
| ClassSort.RenderedArrangement | src/index.ts:33-47 | the rendered sort result is an arrangement's rendering; an empty input gives `""`, dot mode keeps a leading `.`, whitespace mode leaves no outer whitespace |
| ClassSort.SortTwiceDiffers | src/index.ts:11-48 | sorting is not idempotent with the default options: under the order list `["a", "b"]`, `" b.a"` sorts to `"b.a"` and `"b.a"` sorts to `"a.b"` |
| ClassSort.SortClassString | src/index.ts:11-48 | the result is the trimmed join of the unique arrangement of the tokens under the prefixed order list, behind a restored `.`. An empty input gives `""`; dot mode keeps a leading `.`; whitespace mode leaves no outer whitespace |
| MatcherBuilder.IsArrayOfStrings | src/index.ts:70-74 | a list whose every item is a string, the empty list included; `BuildMatcher` and `BuildMatchers` state their cases through it |
| MatcherBuilder.CompileEach | src/index.ts:83 | one pattern per string, in the same order, with the given flags |
| MatcherBuilder.RegexField | src/index.ts:91-96 | an object's `regex` gives one `gi` pattern for a string, one per item for a string list, and none otherwise |
| MatcherBuilder.BuildMatcher | src/index.ts:76-104 | string and string-list cases give `gi` patterns in order with no separator; `undefined` or a mixed list gives none; an object's patterns are those of its `regex` field (`RegexField`), its separator becomes a `g` pattern, and an empty or absent replacement falls back to the separator |
| MatcherBuilder.BuildMatchers | src/index.ts:113-124 | `undefined` or `[]` gives no matcher; a mixed list gives one matcher per element, in order; anything else gives exactly one matcher |
| MatcherBuilder.BuildMatcherPatterns | src/index.ts:76-104 | every pattern of a matcher is `gi` and comes from a string written in the configuration |
| MatcherBuilder.BuildMatchersPatterns | src/index.ts:113-124 | every pattern of every matcher is `gi` and comes from a string written in the configuration |
| TextMatch.FindValueIndex | src/index.ts:144-146 | the value index is the first capture group with a non-empty text, or -1 when there is none |
| TextMatch.MatchValue | src/index.ts:144-147 | the value is the first non-empty capture group of the match: no earlier group is non-empty |
| TextMatch.Reports | src/index.ts:134-159 | the nested-matching reports; its contract is `ReportsLocated`, and `GetTextMatch` is proved equal to it |
| TextMatch.MatchReports | src/index.ts:142-157 | the reports of a prefix of the first pattern's matches; its contract is `MatchReportsLocated` and `SinglePatternReports` |
| TextMatch.GetTextMatch | src/index.ts:134-159 | the callback calls are the nested-matching reports in order; with no pattern there is none |
| TextMatch.ValueLocated | src/index.ts:149-150 | a match's value stands at `startPosition + index + lastIndexOf(value)` in any document holding the searched text |
| TextMatch.ReportsLocated | src/index.ts:140-157 | under nesting too, every reported value is non-empty and stands exactly at its reported offset |
| TextMatch.MatchReportsLocated | src/index.ts:142-157 | the reports of any prefix of the first pattern's matches are located |
| TextMatch.SinglePatternReports | src/index.ts:152-153 | with one pattern there is one report per match, in match order: the match's value at its absolute offset |
| TextMatch.NoMatchNoReports | src/index.ts:140-142 | when the first pattern finds nothing, the callback is never called |
| Processor.Unignored | src/processor.ts:28-33 | the reports the callback pushes; its contract is `UnignoredMembers` |
| Processor.UnignoredMembers | src/processor.ts:28-33 | the callback keeps exactly the reports whose value lacks `headwind-ignore` |
| Processor.KeepUnignored | src/processor.ts:28-33 | the callback loop over one matcher's reports pushes exactly the unignored ones, in order |
| Processor.CollectMatches | src/processor.ts:25-34 | the collection loop yields every matcher's unignored reports, matcher after matcher |
| Processor.CollectMembers | src/processor.ts:25-34 | a class string is collected exactly when some matcher reports it unignored |
| Processor.CollectLocated | src/processor.ts:25-34 | every collected class string is non-empty, lacks the ignore marker, and stands at its offset in the text; an empty text yields none |
| Processor.SortByDescendingStart | src/processor.ts:41-42 | the in-place sort leaves the array a permutation of itself, in non-increasing offset order |
| Processor.InsertIntoPrefix | src/processor.ts:41-42 | one insertion step extends the sorted prefix by one and keeps the array a permutation |
| Processor.OffsetsDistinct | src/processor.ts:41-42 | non-overlapping non-empty class strings have distinct offsets |
| Processor.SortedArrayIsSortBy | src/processor.ts:41-42 | a sorted permutation of non-overlapping strings is the reference sort: the comparator leaves no ties |
| Processor.SortedCopy | src/processor.ts:37-42 | the `matches` array after sorting holds the reference sort of the collected strings |
| Processor.SortedFoundDescending | src/processor.ts:41-42 | sorted non-overlapping strings inside the text occupy disjoint spans, last one first |
| Processor.ReplacementFor | src/processor.ts:51-55 | a replacement's span has exactly the length of its original class string |
| Processor.Replacements | src/processor.ts:45-57 | the recorded replacements; its contract is `ReplacementsSpec`, `ReplacementsAppend` and `ReplacementsDescending` |
| Processor.ReplacementsSpec | src/processor.ts:45-57 | a replacement is recorded exactly for each class string the sorter changes, over its span; there are none when the sorter changes nothing |
| Processor.ReplacementsAppend | src/processor.ts:47-57 | recording one more class string appends its replacement, if it has one, to those already recorded |
| Processor.BuildReplacements | src/processor.ts:45-57 | the replacement loop records the replacements of the sorted array, in array order |
| Processor.ReplacementsDescending | src/processor.ts:45-57 | the replacements of descending disjoint strings are descending disjoint spans |
| Processor.Splice | src/processor.ts:62 | an in-range splice is the text before the span, the replacement, then the text after the span |
| Processor.ApplyReplacements | src/processor.ts:60-63 | the splice loop applies the replacements one after another, first to last |
| Processor.Fold | src/processor.ts:60-63 | the replacements spliced in one after another; its contract is `FoldKeepsSuffix` and `FoldIsRebuild` |
| Processor.FoldKeepsSuffix | src/processor.ts:60-63 | splices inside a prefix leave whatever follows it untouched |
| Processor.FoldIsRebuild | src/processor.ts:60-63 | right to left, sequential splicing equals replacing every span of the original text at once |
| Processor.RebuildKeepsOutside | src/processor.ts:60-63 | text before every span and after every span is kept |
| Processor.PlannedJustified | src/processor.ts:45-57 | every replacement covers a collected, unignored class string of the original text that the sorter changes, and puts the sorted string there |
| Processor.PlannedDescending | src/processor.ts:41-57 | with non-overlapping matches, the planned replacements are disjoint spans inside the text, last one first |
| Processor.Rewrite | src/processor.ts:12-66 | what `processText` returns; its contract is `RewriteSpec`, `RewriteUnchangedWhenSorted` and `RewriteEmpty` |
| Processor.RewriteSpec | src/processor.ts:12-66 | without the ignore-all marker, the result is the original text with every planned span replaced at once |
| Processor.RewriteUnchangedWhenSorted | src/processor.ts:50-56 | when the sorter changes no collected class string, the text comes back exactly |
| Processor.RewriteEmpty | src/processor.ts:12-66 | an empty text comes back empty |
| Processor.ProcessText | src/processor.ts:12-66 | the result is the planned rewrite. A text with `headwind-ignore-all`, or with no surviving match, comes back unchanged |

## Left out

- Regular expressions are abstract. Compiling `new RegExp(v, flags)`, the pattern syntax, and the `lastIndex` state behind `exec` are not modelled. `exec` is a parameter returning the left-to-right matches, and the loop walks them with a cursor. A zero-length match that never advances `lastIndex` (an endless loop in JavaScript) cannot be expressed.
- A custom `options.separator` pattern splits through the parameter `splitBy`. What it splits on is not modelled.
- TextMatch.GetTextMatch: requires every match to have a non-empty capture group inside the matched text (`ExecWellFormed`). With no such group, `findIndex` returns -1 and `undefined` flows into `lastIndexOf`. That JavaScript behaviour is not modelled. The excluded case is not harmless in the source: a match such as `class=""` has only an empty group, so the callback receives `undefined` and `classString.includes` at src/processor.ts:30 throws.
- Processor.ProcessText: requires, for a text without the ignore-all marker, the collected class strings not to overlap and not to repeat. The source does not guard against overlapping matches from several matchers; the text they corrupt is not modelled.
- Processor.ProcessText: the sorter is the parameter `sort`. The asynchronous external sorter awaited at src/processor.ts:48 is a foreign call, and the model runs its calls in sequence.
- ClassSort.SortClassString: the empty-input promise holds only without a `separator` override, because an abstract splitter may return non-empty pieces for an empty string.
- ClassSort.SortClassString: idempotence (sorting a sorted string again) is not claimed, because it does not hold. A result with a single token holds no space, so sorting it again switches to dot mode; `ClassSort.SortTwiceDiffers` gives an instance with the default options.
- `processFile` (src/processor.ts:74-85) reads and writes files, which is I/O. src/cli.ts is command-line plumbing; it is not part of this model.
- `Options.baseDir` is unused by the core. `Matcher.separator` and `Matcher.replacement` are built but never read by `processText`.
- JavaScript strings are UTF-16 code units. The model uses Dafny `char` sequences and does not model surrogate pairs. Offsets are unbounded integers; JavaScript's number range is not modelled.
