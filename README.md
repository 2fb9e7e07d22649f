# Link suggestions for Obsidian, modelled in Dafny

This project models the suggestion engine of an Obsidian plugin that
proposes wiki links while you type. The plugin keeps two name indexes. One
holds the vault's files, keyed by lower-cased basename. The other holds every
Markdown ATX heading, keyed by lower-cased heading text.

When a delimiter key is pressed, the plugin does the following:

- it cuts the cursor's line at the next delimiter;
- it walks the cut line backwards and takes, at every delimiter and at the
  line's start, the trimmed rest of the line as a candidate (at most eight);
- it looks every candidate up in both indexes, using a one-row Levenshtein
  similarity against a length-dependent threshold;
- it filters the session's field to one suggestion per range, a result
  that the assignment after the call overwrites (main.ts:225, 233);
- it sorts the suggestions by average similarity;
- it keeps at most eleven linkables per suggestion, the most similar first;
- it drops suggestions that have no linkables;
- it reconciles the linkables across suggestions, so that every path is
  offered once, by its most similar occurrence.

On every key press the session drops suggestions that end after the cursor,
keeps at most nine, reranks them, and hands its array to the highlighter,
which sorts it in place by start column.

The modules follow the program's parts:

- `Text`: the JavaScript string operations the code relies on.
- `Similarity`: `StringEditDistance`, `GetStringSimimilarity` and the
  threshold test.
- `Style`: `Position` and `Range`.
- `Suggestions`: `Linkable` and the `Suggestion` class.
- `NameIndex`: the two B-trees, as key-ordered sequences of pairs.
- `IndexBuilder`: the pure part of `RebuildTree`.
- `Extractor`: the line walk.
- `Ranking`: the sorts, caps and range dedupe of `MakeSuggestionsUnique`.
- `Highlight`: the in-place column sort of the highlighter's `applyHighlight`.
- `Reconciler`: `MakeLinkablesUnique`.
- `Plugin`: the `LinkSuggestions` class with its fields and key handler.

Imperative code stays imperative. Examples are the DP row buffer (an
`array`), the splice-and-decrement loops (`while` loops over sequences), the
per-suggestion sorts and truncations (writes to `Suggestion.linkables`), and
the `currentSuggestions` field. Each method is proved against a functional
specification, and the specification's properties are proved as lemmas.

Quirks of the code that the model keeps:

- `GetStringSimimilarity` never swaps its arguments (main.ts:312-315). The
  denominator is always the length of the first, so the function is not
  symmetric. `Similarity.SimilarityNotSymmetric` exhibits this.
- The range dedupe of `MakeSuggestionsUnique` filters the
  `currentSuggestions` field, not the list it is given (main.ts:444).
- `handleKeyDown` evaluates `this.currentSuggestions` as the receiver of
  `concat` before `FindSuggestionsOnCursor` runs. The dedupe that the call
  writes to the field is therefore overwritten (main.ts:225).
- The last `MakeSuggestionsUnique` of `handleKeyDown` also writes its range
  dedupe to the field, and the assignment of its result overwrites that
  write too (main.ts:233). A key press therefore never removes duplicate
  ranges from the session. The Find Link Suggestions command (main.ts:190)
  does: it runs `FindSuggestionsOnCursor` alone, and the dedupe's write to
  the field (main.ts:561, 444) stays, dropping the later suggestions of
  each range.
- `applyHighlight` (main.ts:235, 164-167) hands the session's own array to
  the highlighter, whose `sort` (main.ts:114-128) reorders it in place by
  `range.from.ch`, keeping the order of equal columns. The session
  therefore ends as the reranked list in column order, not in average
  order, and the cap of the next key press (`slice(1, 10)`) drops the
  suggestion with the smallest column rather than the best or the oldest.
- In `FindSuggestionsOnCursor`, `MakeSuggestionsUnique` runs before
  `MakeLinkablesUnique` (main.ts:561-562). The result can therefore hold
  suggestions whose lists were emptied by reconciliation.
- The B-tree comparators never return 0 (main.ts:26-44). They answer 1 for
  equal keys, so an insert goes before the pairs with an equal key, and
  duplicates are kept.

Some modelling choices:

- Similarities are `real`.
- The threshold `Math.clamp(2.5 / Math.log2(n), 0.05, 0.9)` is the
  `required` field. Its constraints are stated by
  `Similarity.IsClampedLogThreshold`:
  - 0.05 at length 0;
  - 0.9 for lengths 1 to 6;
  - within [0.05, 0.9];
  - non-increasing;
  - exact at powers of two.
- The `Linkable.suggestion` back-pointer is the `owner` field of the
  `Linkable` value.
- `editor.posToOffset` is a function carried by the `MarkdownView` value.

## Model

| member | source | states |
|---|---|---|
| Text.TrimProperties | main.ts:522 | trim leaves nothing exactly when the text is all whitespace; otherwise neither end of what it leaves is whitespace |
| Text.BlankIsTrimEmpty | main.ts:268 | the character-by-character blank test agrees with `trim().length == 0` |
| Text.ContainsIff | main.ts:393 | `contains` holds exactly when the text has the other string as the slice at some index |
| Text.StrLessTransitive | main.ts:26-44 | the string order the index comparators use is transitive |
| Text.StrLessTotal | main.ts:26-44 | any two different strings are ordered one way or the other |
| Text.IsDelimiterCharIff | main.ts:48 | a character counts as a delimiter exactly when `wordDelimiters` holds it as a one-character string |
| Text.LowerIdempotent | main.ts:280-281 | lower-casing an already lower-cased name changes nothing |
| Text.LowerConcat | main.ts:266 | lower-casing a concatenation lower-cases each part |
| Similarity.StringEditDistance | main.ts:277-304 | the one-row dynamic program returns the Levenshtein distance of the two lower-cased strings |
| Similarity.FillRow | main.ts:284-302 | one pass of the inner loop turns the row for i - 1 into the row of distances for the first i characters of `a` |
| Similarity.RowRecurrence | main.ts:287-297 | the code's shortcut for equal characters is the textbook minimum-of-three recurrence |
| Similarity.LevenshteinZeroIff | main.ts:277-304 | the distance is 0 exactly when the strings are equal |
| Similarity.LevenshteinBounds | main.ts:277-304 | the distance is at least the difference and at most the larger of the two lengths |
| Similarity.EditDistanceProperties | main.ts:280-303 | distance is \|b\| for empty a and \|a\| for empty b; it is 0 exactly when the strings are equal ignoring case |
| Similarity.GetStringSimilarity | main.ts:307-321 | the similarity to an empty first string is 1.0 |
| Similarity.SimilarityProperties | main.ts:310-320 | similarity is at most 1; for non-empty a it is 1 exactly when the strings agree ignoring case; it is negative exactly when the distance exceeds \|a\|; it is non-negative when b is no longer than a |
| Similarity.SimilarityNotSymmetric | main.ts:312-315 | concrete strings whose similarity differs with the argument order, one of them negative |
| Similarity.ShortKeysNeedExactMatch | main.ts:326-329 | for keys of 1 to 6 characters, a key passes exactly when it equals the name ignoring case |
| Similarity.ThresholdBounds | main.ts:326-334 | a passing key has similarity at least 0.05; similarity 0.9 always passes; the empty key always passes |
| Style.Span | main.ts:69 | the range of a candidate lies on its line, starts at its column and is as wide as its text |
| Suggestions.NewLinkable | main.ts:20-23 | a new linkable has the given path and name, similarity 0 and no owner |
| Suggestions.Suggestion.constructor | main.ts:61-75 | the range invariant holds, the fields are the arguments, and every linkable is handed over to the new suggestion |
| Suggestions.Suggestion.ShiftCharBy | main.ts:77-81 | moves the column by the offset, keeps the line, keeps the range invariant and the width |
| Suggestions.Suggestion.ShiftLineBy | main.ts:83-87 | moves the line by the offset, keeps the column, keeps the range invariant and the width |
| NameIndex.LowerBound | main.ts:26-44 | the insertion point of a key comes after every smaller key and before every key that is not smaller, equal keys included |
| NameIndex.SetEntryProperties | main.ts:254 | inserting keeps the index key-ordered and adds exactly the new pair; pairs with a smaller key stay in place, and every other pair, equal keys included, moves up one place behind the new pair |
| NameIndex.GetAllWithName | main.ts:323-336 | the filter returns no more pairs than the index holds |
| NameIndex.GetAllWithNameMembers | main.ts:325-335 | a pair is in the result exactly when a pair of the index with its key passes the threshold for the name; each carries its similarity |
| NameIndex.PassingCounts | main.ts:325-335 | the pairs that pass are drawn from the index, and each passing pair occurs in them exactly as often as in the index, the others not at all |
| NameIndex.GetAllWithNameCounts | main.ts:325-335 | the filter returns one scored pair per passing pair, in index order, duplicates included |
| NameIndex.GetAllWithNameOrdered | main.ts:325-335 | filtering keeps the key order |
| NameIndex.Copy | main.ts:350-351 | the copy of a pair has its path, name and similarity and no owner |
| NameIndex.Copies | main.ts:346-355 | one copy per filtered pair, in order |
| IndexBuilder.LineEnd | main.ts:259 | the end of a line is the first line terminator from the start, or the end of the text |
| IndexBuilder.LinesFrom | main.ts:259 | the split yields at least one line, and no line holds a line terminator |
| IndexBuilder.LinesFromJoined | main.ts:259 | there is one terminator fewer than lines, and joining the lines with the terminators between them gives the text back |
| IndexBuilder.LeadingHashes | main.ts:259 | counts the `#` prefix of a line exactly |
| IndexBuilder.HeaderNameIff | main.ts:259-265 | a line is a heading exactly when 1 to 6 `#` and a space open it; its name is the untrimmed rest |
| IndexBuilder.Headers | main.ts:259 | every line picked up is a heading |
| IndexBuilder.HeaderLines | main.ts:259 | a line is picked up exactly when it is a heading line of the contents |
| IndexBuilder.HeaderLinesCounts | main.ts:259 | each heading line is picked up as often as the contents hold it, and no other line |
| IndexBuilder.HeaderNames | main.ts:265 | the name of each heading is its text without the hash-and-space prefix |
| IndexBuilder.HeaderEntriesMembers | main.ts:263-272 | a pair is made for a heading exactly when its name is not blank; it is keyed by the lower-cased name, with path lower(file path + '#' + name) |
| IndexBuilder.NonBlank | main.ts:268 | each non-blank name is kept as often as it occurs, each blank one is dropped |
| IndexBuilder.HeaderEntriesCounts | main.ts:263-272 | one pair per non-blank heading name, in order, duplicates included |
| IndexBuilder.AddAll | main.ts:254 | inserting a list keeps the index key-ordered and adds exactly those pairs |
| IndexBuilder.AddAllAppend | main.ts:271 | inserting one more pair is one more `set` |
| IndexBuilder.AddHeaderStep | main.ts:263-272 | one pass of the header loop inserts the heading's pair, or skips a blank name |
| IndexBuilder.FilesIndex | main.ts:247-254 | the files index is key-ordered |
| IndexBuilder.HeadersIndex | main.ts:247-273 | the headings index is key-ordered |
| IndexBuilder.FilesIndexProperties | main.ts:242-254 | exactly one pair per file, keyed by its lower-cased basename, path lower-cased with the first ".md" removed |
| IndexBuilder.HeadersIndexProperties | main.ts:242-274 | the headings index holds exactly the heading pairs of all files |
| IndexBuilder.ReplaceMdSuffix | main.ts:250 | removing ".md" from a path that has it only at the end gives the path without it |
| IndexBuilder.ReplaceMdFirstOnly | main.ts:250 | only the first ".md" is removed, even inside a folder name |
| Extractor.DelimiterFrom | main.ts:501-508 | finds the first delimiter at or after the cursor, or the end of the line |
| Extractor.TruncatedProperties | main.ts:501-508 | the cut line is a prefix of the line, has no delimiter from the cursor on, and is the whole line or ends before a delimiter |
| Extractor.WordPositionsDescending | main.ts:513-558 | the walk visits positions from the end downwards, each at most once |
| Extractor.WordPositionsExact | main.ts:515-528 | the walk looks up exactly the delimiters (and position 0) that are followed by a non-blank rest |
| Extractor.WalkStep | main.ts:515-558 | one step of the walk records the position exactly when it yields a word |
| Extractor.Words | main.ts:491 | at most eight words are looked up |
| Extractor.WalkEnd | main.ts:513 | where the loop stops, it has visited exactly the first eight word positions, or all of them |
| Ranking.Avg | main.ts:478-481 | the average is NaN exactly for an empty list |
| Ranking.AvgBounds | main.ts:478-481 | the average of values within bounds lies within them |
| Ranking.SortDescPermutes | main.ts:452-454 | the stable sort is a permutation |
| Ranking.SortDescSorted | main.ts:452-454 | with no NaN key the result is in descending key order |
| Ranking.SortDescFixed | main.ts:452-454 | a list already in descending order is left as it is |
| Ranking.SortDescFirsts | main.ts:452-454 | the sort permutes the sorted items |
| Ranking.SortLinkablesProperties | main.ts:460-462 | the linkable sort is a permutation into descending similarity, and leaves a descending list unchanged |
| Ranking.SortLinkablesIdempotent | main.ts:460-462 | sorting twice is sorting once |
| Ranking.Take | main.ts:469 | `slice(0, n)` is the first min(n, length) items |
| Ranking.TopLinkablesProperties | main.ts:456-470 | after the sort and the slice, a list has at most 11 items, in descending similarity, all from the list; it is empty only when the list was; it is a permutation when the list had at most 11; doing it again changes nothing |
| Ranking.TopLinkablesFixed | main.ts:456-470 | a descending list of at most 11 is left as it is |
| Ranking.TopAllFixed | main.ts:456-470 | lists that are all ranked are left as they are |
| Ranking.SortDescTies | main.ts:114-128 | the stable sort keeps the items of each key in their order |
| Ranking.InsertTies | main.ts:114-128 | inserting an item puts it before the items that already have its key |
| Ranking.SortByAverageOfMembers | main.ts:452-454 | the suggestion sort on given lists keeps exactly the suggestions it is given, as often as they occur |
| Ranking.SortByAveragePermutes | main.ts:452-454 | the suggestion sort is a permutation of the suggestions |
| Ranking.SortByAverageIsOf | main.ts:451-454 | the suggestion sort depends on the suggestions only through the lists they hold |
| Ranking.SortByAverageProperties | main.ts:451-454 | when every list is non-empty, the suggestions end up in descending order of average similarity |
| Ranking.FirstPerRangeSubset | main.ts:444-449 | the range filter keeps only suggestions of the list, and no more of them than the list holds |
| Ranking.FirstPerRangeUnique | main.ts:444-449 | after the filter no two suggestions share a range |
| Ranking.FirstPerRangeCovers | main.ts:444-449 | every range of the list survives the filter |
| Ranking.FirstPerRangeKeepsFirst | main.ts:444-449 | the first suggestion with each range is the one kept |
| Ranking.KeepNonEmptyMembers | main.ts:473 | the filter keeps exactly the suggestions with at least one linkable |
| Ranking.KeepNonEmptyAll | main.ts:473 | nothing is dropped when no list is empty |
| Ranking.KeepNonEmptyDistinct | main.ts:473 | the filter repeats no suggestion |
| Ranking.KeepNonEmptyListed | main.ts:473 | the filter depends only on which lists are empty |
| Ranking.KeepNonEmptyRanked | main.ts:456-473 | suggestions holding the top 11 of lists `L` are kept exactly when their list in `L` was not empty |
| Ranking.RankedSelection | main.ts:456-473 | a selection from suggestions holding the top 11 of their lists holds the top 11 of the matching lists |
| Ranking.SortByAverageUnchanged | main.ts:452-454 | the sort depends only on the suggestions' state |
| Ranking.ListsUnchanged | main.ts:452-473 | the filter, the order and the rank of suggestions depend only on their lists |
| Ranking.RankedUnchanged | main.ts:456-470 | sorting and slicing lists that are already ranked changes none of them |
| Highlight.SortByColumnPermutes | main.ts:114-128 | the column sort keeps exactly the suggestions it is given, as often as they occur |
| Highlight.SortByColumnAscending | main.ts:114-128 | after the sort the start columns do not decrease |
| Highlight.SortByColumnStable | main.ts:114-128 | the suggestions starting at one column keep their order |
| Highlight.SortByColumnFixed | main.ts:114-128 | a list already in column order is left as it is |
| Highlight.SortByColumnIdempotent | main.ts:114-128 | sorting twice is sorting once |
| Reconciler.FlattenMembers | main.ts:383-386 | every pooled linkable comes from some suggestion's list |
| Reconciler.KeepStrongMembers | main.ts:389-399 | the first loop keeps exactly the linkables that are not below 0.9 while named in their owner's text |
| Reconciler.WinnersUpToMembers | main.ts:402-426 | the second loop keeps exactly the occurrences that no other occurrence of the same path beats |
| Reconciler.WinnersSamePath | main.ts:411-422 | two winners of the same path are the same occurrence |
| Reconciler.WinnersUnique | main.ts:402-426 | after the second loop no path occurs twice |
| Reconciler.WinnersMaximal | main.ts:411-422 | a kept linkable has the highest similarity of its path |
| Reconciler.WinnersCover | main.ts:402-426 | every path of the pool keeps one linkable |
| Reconciler.ReconciledProperties | main.ts:383-426 | the surviving pool has unique paths, the highest similarity of each strong path, one linkable for every strong path, no redundant linkable, and nothing from outside the suggestions |
| Reconciler.OwnedByMembers | main.ts:434-438 | the pushes give each suggestion exactly the surviving linkables it owns |
| Reconciler.OwnedByUnique | main.ts:434-438 | a suggestion's share of a pool with unique paths has unique paths |
| Reconciler.Distribute | main.ts:429-438 | handing out a pool with unique paths leaves no path in two suggestions |
| Reconciler.ReconciledNoSharedPath | main.ts:378-438 | after reconciling, no path occurs twice across all suggestions |
| Reconciler.Owned | main.ts:429-438 | a suggestion receives only linkables it already held |
| Reconciler.ReconciledSound | main.ts:383-426 | the surviving pool adds no linkable |
| Reconciler.RemoveAt | main.ts:396 | removing the item at i shifts the later items down by one |
| Reconciler.RemoveLoser | main.ts:411-422 | removing an occurrence that another beats keeps every winner and the loop's bookkeeping |
| Reconciler.ItemWins | main.ts:405-425 | an item with no later item on its path is a winner, so the outer loop moves on |
| Reconciler.SettledIsWinners | main.ts:402-426 | when the outer loop ends, what is left is the list of winners |
| Reconciler.MakeLinkablesUnique | main.ts:378-439 | every suggestion's list becomes exactly the reconciled linkables it owns, in pool order; for distinct suggestions no path is shared |
| Reconciler.Pool | main.ts:380-386 | the pool is the concatenation of all lists in order |
| Reconciler.DropRedundant | main.ts:389-400 | the first splice loop leaves exactly the non-redundant linkables, in order |
| Reconciler.DropStep | main.ts:393-398 | splicing out a redundant item keeps the loop invariant |
| Reconciler.KeepStep | main.ts:389-399 | stepping over a strong item keeps the loop invariant |
| Reconciler.KeepBest | main.ts:402-426 | the nested splice loops leave exactly the winners, in pool order |
| Reconciler.CompareLater | main.ts:405-425 | the inner loop removes losers and keeps every winner; if item i survives, no later item shares its path |
| Reconciler.Redistribute | main.ts:429-438 | every suggestion's list becomes exactly the pooled linkables it owns, in order |
| Plugin.LookupMembers | main.ts:532-548 | a word's linkables are exactly the owner-free copies of the pairs of either index that pass for the lower-cased word |
| Plugin.ReadWord | main.ts:517-522 | the word is the trimmed rest of the line after the delimiter, or the whole line at position 0; it is empty exactly when that rest is blank |
| Plugin.HoldsGrounded | main.ts:61-74 | a suggestion built from looked-up linkables owns each of them |
| Plugin.GroundedTop | main.ts:456-470 | sorting and truncating a list keeps it owned and looked up |
| Plugin.RankedHandedOwners | main.ts:456-470 | every linkable in the top 11 of a handed-over list is owned by its suggestion and was looked up for its word |
| Plugin.SettledListsProperties | main.ts:378-438 | for distinct suggestions the settled lists share no path, and each holds only linkables its suggestion owns and looked up |
| Plugin.RankedSublists | main.ts:456-473 | suggestions chosen from a ranked walk still hold the top 11 of their own looked-up lists |
| Plugin.SettledRanking | main.ts:441-476 | what MakeSuggestionsUnique leaves of distinct looked-up suggestions is RankFound of them: distinct, drawn from them, holding the top 11 of their own looked-up lists, and those dropped hold nothing |
| Plugin.PlacedAppended | main.ts:225 | the concatenation of suggestions that are placed after the key press keeps them placed |
| Plugin.WalkedLists | main.ts:532-553 | the suggestions of the walk hold exactly their looked-up linkables |
| Plugin.ListsConcat | main.ts:225 | the lists of a concatenation are the concatenation of the lists |
| Plugin.ListsAppended | main.ts:225 | appending found suggestions to kept ones appends their lists |
| Plugin.SortedAlong | main.ts:451-454 | the suggestion sort follows the lists the suggestions hold, and each sorted suggestion keeps its list |
| Plugin.RerankedKeeps | main.ts:456-473 | after the top-11 step, the final filter keeps the suggestions whose list was not empty before it |
| Plugin.RankedStay | main.ts:456-470 | suggestions whose list was ranked already keep it unchanged |
| Plugin.WalkedAppend | main.ts:550-553 | pushing the new suggestion extends what the walk has opened |
| Plugin.CutAtDelimiter | main.ts:501-508 | the loop cuts the line exactly as the functional cut does |
| Plugin.KeptBeforeCursorMembers | main.ts:211-221 | a suggestion survives the removal loop exactly when it does not end after the cursor |
| Plugin.DropAfterCursor | main.ts:211-221 | the splice loop keeps exactly the suggestions that do not end after the cursor, in order |
| Plugin.Cap | main.ts:228-231 | the cap leaves at most nine, or the list unchanged |
| Plugin.CapProperties | main.ts:228-231 | at most nine are left, all from the list; a list of ten or more becomes exactly items 1 to 9; shorter lists are unchanged |
| Plugin.CapWithin | main.ts:228-231 | every suggestion the cap leaves was in the list |
| Plugin.LinkSuggestions.constructor | main.ts:160 | the session starts with no suggestions and empty indexes, and the invariant holds |
| Plugin.LinkSuggestions.HandleKeyDown | main.ts:200-236 | keeps the session invariant: at most nine suggestions, each with 1 to 11 linkables, most similar first. Without a view nothing changes. Otherwise the reranked list `ranked` is the non-empty suggestions of the average sort of the cap of the kept suggestions followed by the found ones, where each has its list (the kept ones their old list, the found ones their settled list), and the session ends as `ranked` sorted stably by start column, in ascending column order. Each list of the cap becomes its top 11; a found suggestion dropped by the cap keeps its settled list, and no old suggestion's list changes. For a non-delimiter key `ranked` is in descending average order |
| Plugin.LinkSuggestions.KeyDownAt | main.ts:209-235 | the key handler for an open view: the reranked list and the lists as HandleKeyDown, the session as its column sort, holding exactly the reranked suggestions, and the old suggestions outside the found ones unchanged |
| Plugin.LinkSuggestions.RankAt | main.ts:209-233 | the removal loop, the concatenation, the cap and the rerank: the field becomes the non-empty suggestions of the average sort of the capped list with its lists, each placed and ranked; each capped list becomes its top 11; the found suggestions are RankFound of the walk; a found suggestion outside the cap keeps its settled list |
| Plugin.LinkSuggestions.ApplyHighlight | main.ts:164-167 | with an active view the session's array becomes its stable sort by start column, in ascending column order, holding the same suggestions as often as before; without one nothing changes |
| Plugin.LinkSuggestions.RerankGathered | main.ts:228-233 | the cap and MakeSuggestionsUnique on the kept suggestions followed by the found ones: the result is the non-empty suggestions of the average sort of the capped list with its lists, the capped lists become their top 11, and a found suggestion outside the cap keeps its settled list |
| Plugin.LinkSuggestions.RerankKeeping | main.ts:228-233 | the cap and MakeSuggestionsUnique, keeping the place of every suggestion; with only ranked lists in the cap, the result is its average sort, in descending order, with no list changed |
| Plugin.LinkSuggestions.RerankPlaced | main.ts:228-233 | the cap and MakeSuggestionsUnique: a suggestion left is one of the cap and keeps its place after the key press |
| Plugin.LinkSuggestions.RerankAfterWalk | main.ts:228-233 | the cap and MakeSuggestionsUnique as in Rerank (the field becomes the non-empty suggestions of the average sort of the cap, lists cut to 11, at most nine, all ranked), and they leave the walk as it was and the found suggestions outside the cap with their settled lists |
| Plugin.LinkSuggestions.Gather | main.ts:210-226 | the field becomes the suggestions that end at or before the cursor, in order, followed on a delimiter key by the found suggestions, which are RankFound of the walk's suggestions at the cursor and hold their settled lists; the kept ones keep theirs |
| Plugin.LinkSuggestions.AppendFound | main.ts:223-226 | the field becomes the kept list followed by the found suggestions, and its lists the kept lists followed by the settled lists |
| Plugin.LinkSuggestions.FoundAtCursor | main.ts:225 | FindSuggestionsOnCursor with the view: the found suggestions are RankFound of a walk opened at the cursor and hold their settled lists, while the kept suggestions keep theirs |
| Plugin.LinkSuggestions.FoundNew | main.ts:225 | the suggestions FindSuggestionsOnCursor returns are new, opened at the cursor, RankFound of the walk, holding their settled lists, and placed after the key press |
| Plugin.LinkSuggestions.Rerank | main.ts:228-233 | the cap, then MakeSuggestionsUnique on the field: the field becomes the non-empty suggestions of the average sort of the cap, each list of the cap becomes its top 11, at most nine are left, all ranked; if they were ranked already, it is their sort by average, in descending order, with the lists unchanged |
| Plugin.LinkSuggestions.CapAndRank | main.ts:228-233 | the result is the non-empty suggestions of the average sort of the capped list, each capped list becomes its top 11; with ranked lists, the descending sort with no list changed |
| Plugin.LinkSuggestions.Rank | main.ts:233 | MakeSuggestionsUnique: the result is the non-empty suggestions of the average sort, each list becomes its top 11; when every list is ranked, nothing is dropped, no list changes, and the order is descending by average |
| Plugin.LinkSuggestions.RebuildTree | main.ts:238-275 | the indexes become exactly the files index and the headings index of the given files, and the plugin's invariant is kept |
| Plugin.LinkSuggestions.IndexFiles | main.ts:248-272 | on emptied indexes, the file loop builds exactly the files index and the headings index of the given files |
| Plugin.LinkSuggestions.IndexFile | main.ts:248-272 | one file's pair is set into the files index and its heading pairs are added to the headers index |
| Plugin.LinkSuggestions.AddHeaders | main.ts:261-273 | the header loop inserts one pair per heading with a non-blank name, in order |
| Plugin.LinkSuggestions.CopyValues | main.ts:346-355 | the copy loop makes one copy per pair, in order |
| Plugin.LinkSuggestions.GetAllFilesWithName | main.ts:338-356 | the copies of the file pairs that pass for the lower-cased name |
| Plugin.LinkSuggestions.GetAllHeadersWithName | main.ts:358-376 | the copies of the heading pairs that pass for the lower-cased name |
| Plugin.LinkSuggestions.MakeSuggestionsUnique | main.ts:441-476 | the field becomes its first-per-range filter. Every list becomes its top 11 by similarity. The result lists the suggestions in stable descending average order, without those whose lists are empty |
| Plugin.LinkSuggestions.NewCandidate | main.ts:532-552 | a new suggestion for the word at the given place that holds exactly the word's looked-up linkables |
| Plugin.LinkSuggestions.Visit | main.ts:515-556 | a candidate is opened at a position exactly when it yields a word; it sits at that word's place |
| Plugin.LinkSuggestions.VisitStep | main.ts:513-558 | one pass of the walk appends at most one new suggestion and keeps the walk's invariant |
| Plugin.LinkSuggestions.CollectCandidates | main.ts:511-559 | the walk builds one new suggestion per visited word position, in walk order, each holding its word's linkables |
| Plugin.LinkSuggestions.Candidates | main.ts:490-559 | one new, distinct suggestion per word position of the cut line, in walk order, each opened at its word and holding exactly its looked-up linkables |
| Plugin.LinkSuggestions.FindSuggestionsOnCursor | main.ts:483-580 | without a view nothing is found and nothing changes; otherwise the field is deduped by range, the walk opens one suggestion per word of the cut line, and the result is RankFound of the walk, each holding its settled list; those dropped hold nothing. At most eight, distinct, opened on the cut line, owning only looked-up linkables, with no path shared. The plugin's invariant is kept |
| Plugin.SessionFirsts | main.ts:444-449 | the range dedupe of the session keeps its invariant: at most nine suggestions, each well-formed and ranked |
| Plugin.SessionStays | main.ts:238-275 | a step that leaves the session's suggestions alone keeps the session's invariant |
| Plugin.LinkSuggestions.Settle | main.ts:561-562 | MakeSuggestionsUnique then MakeLinkablesUnique: the result is RankFound of the found suggestions, each holding its settled list, owned and looked up, no path shared; those dropped hold nothing. When the found suggestions are new, the session's invariant survives the dedupe |
| Plugin.LinkSuggestions.SettleUnique | main.ts:561 | MakeSuggestionsUnique on the found suggestions: the result is RankFound of them, each holding the top 11 of its looked-up list; those dropped hold nothing |
| Plugin.LinkSuggestions.Reconcile | main.ts:562 | MakeLinkablesUnique on suggestions holding their top 11: each list becomes its settled list, so every list stays owned and looked up, and no path is shared |
| Plugin.TopEach | main.ts:456-470 | every list becomes its top 11 by similarity |
| Plugin.SortEach | main.ts:456-463 | every list becomes its stable sort by descending similarity |
| Plugin.TruncateEach | main.ts:465-470 | every list becomes its first 11 |

## Left out

- Rendering: `matchHighlighter`, `HighlightPlugin` and `clearHighlight`, and the decorations that `applyHighlight` builds after its sort (main.ts:130-144), go through CodeMirror's foreign API. The sort itself is modelled.
- Plugin.LinkSuggestions.ApplyHighlight: the highlighter looks up the active view again (main.ts:105). The model hands it the view `handleKeyDown` saw.
- Plugin lifecycle: `onload`, `onunload`, `addCommand`, `registerDomEvent` and `onLayoutReady` are host glue. The constructor stands for the empty state that `onload` starts from.
- Vault I/O: `getMarkdownFiles` and the awaited `vault.read` become the `files` parameter of `RebuildTree`, a list of (path, basename, contents). Interleaving with other events during the awaits is not modelled.
- The active view and `editor.getCursor`/`getLine`/`posToOffset` become the `MarkdownView` value. `posToOffset` is an arbitrary function.
- `console.log` calls carry no behaviour and are left out.
- The `sorted-btree` library is replaced by a key-ordered sequence. `filter` and `valuesArray` are replaced by a filter over that sequence, in key order.
- NameIndex.LowerBound: the library's source is not part of this model. The model assumes that its search calls the comparator with the stored key first and the new key second, as `compare(stored, new)`. With the other argument order, the comparator's answer of 1 for equal keys would put a new pair after them instead.
- Floating point: similarities, averages and the threshold are exact reals. Rounding of the division and of `2.5 / Math.log2(n)` is not modelled.
- The threshold: `Math.log2` and `Math.clamp` are not computable over reals. The threshold is the `required` parameter, with the bounds `IsClampedLogThreshold` states. Values between powers of two are not pinned down.
- Ranking.SortByAverageProperties: orders suggestions only when every list is non-empty. An empty list averages to NaN, and the comparator then returns NaN, which makes the JavaScript sort order implementation-defined. The model treats a NaN comparison as a tie (the comparator result NaN is read as +0), a stable insertion order.
- The `simmilarity` write to the index's own values inside `GetAllWithName` (main.ts:331) is left out. It is only read by the copy made right after, which is modelled. Linkables are values, since each one belongs to exactly one list at a time.
- `removalKeys` and `keysThatAddACharacter` (main.ts:46-47) are declared but never used by the code.
- The unused `allLinkables` list of `FindSuggestionsOnCursor` (main.ts:488, 539, 547) is left out.
- Strings: characters are Dafny `char`s. UTF-16 surrogate pairs, `toLowerCase` beyond ASCII A-Z, and Unicode case mapping are not modelled.
- Similarity: the symmetry of the Levenshtein distance is not proved. The code never needs it, because it calls the distance in one argument order.
- Plugin.LinkSuggestions.HandleKeyDown: after a delimiter key the reranked list is stated as the average sort of the capped list, but not as descending. Found suggestions may hold empty lists, so the NaN case above applies.
- Loops were split into helper methods without changing what the code does. Examples are `VisitStep` for one pass of the walk, `CompareLater` for the inner loop of the dedupe, `KeyDownAt`/`RankAt`/`Gather`/`AppendFound`/`FoundAtCursor`/`FoundNew` and `RerankGathered`/`RerankKeeping`/`RerankPlaced`/`RerankAfterWalk`/`Rerank`/`CapAndRank`/`Rank` for the steps of `handleKeyDown`, and `Settle`/`SettleUnique`/`Reconcile` for the two calls after the walk, and `IndexFiles`/`IndexFile`/`AddHeaders` for the loops of `RebuildTree`.
- In-place sorts (`suggestions.sort`, `linkables.sort`) are computed as values. `MakeSuggestionsUnique` computes the order before the field dedupe, which reads other objects and not the order. The aliasing of JavaScript arrays between callers is not modelled: a Dafny `seq` of suggestions is a value, while the suggestions themselves are shared objects.
- Similarity.FillRow: JavaScript's growing `costs` array is a fixed array of |b| + 1 entries. The first row fills every entry, so the two agree.
