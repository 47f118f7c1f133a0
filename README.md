# MIT 6.00 problem sets in Dafny

This project models the deterministic cores of several MIT 6.00 problem sets written in Python 2 and proves what their code promises. The main part is the campus-map route search of PS11. It looks for the shortest route between two buildings, over a directed graph whose edges carry a (total distance, outdoor distance) pair, with limits on both totals. It finds the route in two ways:
- it lists every simple path (`allPaths`) and picks the shortest one (`bruteForceSearch`);
- it runs a pruned depth-first search (`dfSearch`) that shares a memo of the best length found so far, and picks the shortest path it returns (`directedDFS`).

The smaller cores are:
- the Caesar cipher of PS4: a 27-symbol alphabet, coder dictionaries, layered shifts and a shift search;
- the course advisor of PS9: a selection sort over keys, a greedy knapsack, decimal to binary conversion, power-set generation and a brute-force knapsack;
- the RSS trigger algebra of PS5, with its story filter and its trigger-configuration parser;
- the rectangular room and its tile table from the robot simulation of PS6;
- the helpers and guess loop of the hangman game of PS2;
- the virus and patient bookkeeping of PS8.

Each Python file is one module:
- `ShortestPath` models `PS11/shortest_path.py`;
- `Cipher` models `PS4/cipher.py`;
- `CourseAdvisor` models `PS9/course_advisor.py`;
- `RssFilter` models `PS5/rssfilter.py`;
- `Robots` models `PS6/robots.py`;
- `Hangman` models `PS2/hangman.py`;
- `VirusSim` models `PS8/virus_sim.py`;
- `VirusDrugSim` models `PS8/virus_drug_sim.py`.

Two shared modules support them. `Wrappers` holds `Option` and `Result`. `PyStr` holds the Python string operations the programs use on ASCII text: `lower`, `split`, `' '.join`, `rstrip` and negative indexing.

How the Python code is carried over:
- Code that updates variables in loops becomes a Dafny `method` with the same loop. The method is proved equal to a specification function, and the properties are proved about that function as lemmas.
- Objects whose fields the source updates become classes: `RectangularRoom`, `Robot`, `SimplePatient`, `Patient`, the memo dictionary of `dfSearch` and the story counter of `NewsStory`.
- `dictSort` sorts a Dafny `array` in place.
- Exceptions become the `Err` case of a `Result`, or `None` for the `NoChildException`. These are `ValueError`, `KeyError`, `IndexError`, `UnboundLocalError` and `ZeroDivisionError`.
- Random draws and keyboard input become parameters.
- Integers are unbounded, as in Python.

## Model

| member | source | states |
|---|---|---|
| ShortestPath.ComputePathLength | PS11/shortest_path.py:97-108 | `pathLength` equals the specification `PathLength`: the sum, over consecutive nodes, of the weights of every matching child entry. Parallel edges add up, and a one-node path weighs (0, 0). |
| ShortestPath.EdgeSumConcat | PS11/shortest_path.py:103-106 | Summing matching child entries distributes over concatenating the child list. |
| ShortestPath.EdgeSumNonNegative | PS11/shortest_path.py:103-106 | With non-negative edge weights, every step weight is non-negative in both components. |
| ShortestPath.PathLengthAppend | PS11/shortest_path.py:97-108 | Extending a path by one node adds exactly the weight of the new step. |
| ShortestPath.PrefixNoLonger | PS11/shortest_path.py:97-108 | With non-negative weights, a prefix of a path is no longer than the path in either component. This is why `dfSearch` may prune a partial path. |
| ShortestPath.AllPathsSound | PS11/shortest_path.py:71-95 | Every path `allPaths` returns extends the given prefix, is simple, follows edges, ends at `end`, and is within both bounds. |
| ShortestPath.AllPathsChildrenSound | PS11/shortest_path.py:88-95 | The same soundness for the loop over the children of a node. |
| ShortestPath.AllPathsComplete | PS11/shortest_path.py:71-95 | Every simple start-to-end path within both bounds that extends the prefix is in the result of `allPaths`. |
| ShortestPath.AllPathsChildrenComplete | PS11/shortest_path.py:88-95 | The same completeness for the children loop. |
| ShortestPath.AllPathsAreFeasiblePaths | PS11/shortest_path.py:71-95 | From the empty prefix, a path is in the result of `allPaths` exactly when it is a simple start-to-end path within both bounds. |
| ShortestPath.SelectShortest | PS11/shortest_path.py:141-152 | The selection loop returns nothing exactly when no listed path is eligible. Otherwise it returns the first eligible path of least total, because the comparison is a strict `<`. |
| ShortestPath.BruteForceSearch | PS11/shortest_path.py:110-157 | `ValueError` is raised exactly when no simple path meets both bounds. Otherwise the result is feasible, no longer than any feasible simple path, and the first such path in enumeration order. |
| ShortestPath.OwnBuildingOnly | PS11/shortest_path.py:82-85 | With start equal to end, `allPaths` returns only `[start]`. |
| ShortestPath.RecordArrival | PS11/shortest_path.py:184-194 | A memo write never increases the stored length. A new value is the arrival's length. As written, only the first write may be infeasible. |
| ShortestPath.DfsSound | PS11/shortest_path.py:163-217 | Unconditionally, every path `dfSearch` returns extends the prefix, is simple, follows edges, ends at `end`, and is within both bounds. |
| ShortestPath.DfsChildrenSound | PS11/shortest_path.py:202-217 | The same soundness for the pruned children loop. |
| ShortestPath.DfsMemo | PS11/shortest_path.py:184-215 | The memo never gets worse across a call. When the memo on entry can be trusted, any new value is the length of a path the same call returns. |
| ShortestPath.DfsChildrenMemo | PS11/shortest_path.py:202-215 | The same memo invariant across the children loop. |
| ShortestPath.DfsOptimal | PS11/shortest_path.py:163-217 | When the memo on entry can be trusted and weights are non-negative, every completion q of the partial path within both bounds is matched by a returned path no longer than q, or by the memo on entry. |
| ShortestPath.DfsChildrenOptimal | PS11/shortest_path.py:202-217 | The same optimality for the children loop. |
| ShortestPath.DfsChildCovers | PS11/shortest_path.py:205-215 | The child that a fitting completion goes through, whether pruned or searched, covers that completion: a returned path or the memo on entry is no longer than it. |
| ShortestPath.DfsChildWitnessed | PS11/shortest_path.py:205-215 | Any other child leaves a memo no worse than before, changed only to the length of a path it returned, and still trustworthy. |
| ShortestPath.PrunedCompletion | PS11/shortest_path.py:209-211 | When a partial path is pruned while one of its completions fits both bounds, the memo is set and no longer than that completion. |
| ShortestPath.NextOnCompletion | PS11/shortest_path.py:205 | The node a simple completion visits right after the partial path is not on it, so the `not in path` test lets it through. |
| ShortestPath.WitnessedConcat | PS11/shortest_path.py:213-215 | Two successive memo changes, each matched by a returned path, are matched by the concatenated result list. |
| ShortestPath.DfsFindsOptimum | PS11/shortest_path.py:219-271 | With non-negative weights, when every complete simple path is within both bounds (as in the LARGE_DIST tests) or the memo records only feasible lengths, `dfSearch` returns only feasible paths and one at least as short as every feasible simple path. |
| ShortestPath.DfsPathsSound | PS11/shortest_path.py:219-250 | Every path of the top-level search is a feasible start-to-end path, whichever memo policy is used. |
| ShortestPath.FeasibleOnlyMemoFindsOptimum | PS11/shortest_path.py:189-197 | With the corrected memo, the search returns nothing exactly when no feasible path exists, and otherwise it returns an optimal one. |
| ShortestPath.DetourWeights | PS11/shortest_path.py:97-108 | The lengths of the paths in the three-node example graph. |
| ShortestPath.DetourAsWritten | PS11/shortest_path.py:189-194 | In the example graph, the search as written returns no path. |
| ShortestPath.DetourCorrected | PS11/shortest_path.py:189-194 | In the example graph, the corrected search returns the feasible detour. |
| ShortestPath.FirstArrivalCounterexample | PS11/shortest_path.py:184-197 | A feasible path exists, yet the search as written returns nothing, so `directedDFS` raises `ValueError`. The corrected memo finds the path. |
| ShortestPath.Memo.constructor | PS11/shortest_path.py:179-180 | A fresh memo holds no shortest length. |
| ShortestPath.DfSearch | PS11/shortest_path.py:163-200 | The imperative search, with its memo object, returns the paths and leaves the memo as the as-written specification `DfsRun` says. |
| ShortestPath.SearchChildren | PS11/shortest_path.py:202-217 | The children loop, reading and writing the shared memo, agrees with `DfsChildren`. |
| ShortestPath.SearchChild | PS11/shortest_path.py:205-215 | One turn of the children loop (the `not in path` test, the pruning test against the memo, the recursive call) returns the paths and leaves the memo as `DfsChild` says. |
| ShortestPath.ChildrenAdvance | PS11/shortest_path.py:204-215 | After one turn, the paths collected so far plus the rest of the loop give the same result as before the turn. |
| ShortestPath.DirectedDfs | PS11/shortest_path.py:219-271 | Raises `ValueError` exactly when the search returns no path, and whenever no feasible path exists. Otherwise it returns a feasible path that is minimal among the returned ones. When every complete path is within the bounds, it is as short as every feasible path, so it agrees with `bruteForceSearch`. |
| Cipher.Letter | PS4/cipher.py:142-143 | Symbol i of the alphabets: an upper-case or lower-case letter below 26, and the space exactly at 26. |
| Cipher.Alphabet | PS4/cipher.py:142-143 | Each alphabet has 27 symbols, in order. |
| Cipher.Pos | PS4/cipher.py:146-154 | The position of a character in its alphabet is in 0..26 and gives the character back. |
| Cipher.PosOfLetter | PS4/cipher.py:146-154 | Position and symbol are inverse. |
| Cipher.CoderKeys | PS4/cipher.py:153-154 | The keys of a coder are exactly the 52 letters and the space. |
| Cipher.BuildCoder | PS4/cipher.py:121-157 | `build_coder` fills the dictionary so that symbol i maps to symbol (i+shift) mod 27 of the same alphabet. Negative shifts use Python's negative indexing. The space keeps its lower-case image, because that key is written last. |
| Cipher.CoderComplete | PS4/cipher.py:146-154 | A dictionary equal to the loop's result on every alphabet key, with no other key, is the coder. |
| Cipher.BuildEncoder | PS4/cipher.py:159-187 | `build_encoder(s)` is the coder of shift s. |
| Cipher.BuildDecoder | PS4/cipher.py:189-218 | `build_decoder(s)` is the coder of shift -s. |
| Cipher.Recode | PS4/cipher.py:235-242 | Applying a coder keeps the length. |
| Cipher.ApplyCoder | PS4/cipher.py:221-242 | `apply_coder` keeps the length, replaces every character the coder holds by its image, and leaves every other character alone. |
| Cipher.ApplyShift | PS4/cipher.py:244-262 | `apply_shift(t, s)` is `apply_coder(t, build_encoder(s))`, and it shifts each character on its own. |
| Cipher.ShiftBack | PS4/cipher.py:146-154 | Shifting a position by s and then by -s, modulo 27, gives it back. |
| Cipher.DecodeEncodeChar | PS4/cipher.py:205 | Decoding an encoded character gives it back, except an upper-case letter sent to the space, which comes back in lower case. |
| Cipher.DecodeEncode | PS4/cipher.py:229-233 | The same, position by position, for whole texts. |
| Cipher.DecodeEncodeRestores | PS4/cipher.py:229-233 | A text with no upper-case letter encoded as the space decodes to itself. |
| Cipher.UpperToSpace | PS4/cipher.py:132-135 | For shift 3, `'X'` maps to the space, and the space key maps to `'c'`, as in the docstring example. |
| Cipher.ShiftFrom | PS4/cipher.py:334-335 | One layer of `apply_shifts` keeps the length. |
| Cipher.Layered | PS4/cipher.py:333-336 | The layered shifts keep the length. |
| Cipher.ApplyShifts | PS4/cipher.py:316-336 | `apply_shifts` applies the shifts in list order, each from its location to the end of the text. |
| Cipher.LayeredPointwise | PS4/cipher.py:333-336 | Each character is transformed independently by the shifts that start at or before its position. |
| Cipher.LayeredKeepsPrefix | PS4/cipher.py:333-336 | Text in front of every shift location is untouched. |
| Cipher.StripLeft | PS4/cipher.py:64 | `lstrip` of the punctuation set leaves no punctuation at the front. |
| Cipher.StripRight | PS4/cipher.py:64 | `rstrip` of the punctuation set leaves no punctuation at the back. |
| Cipher.StripDropsOnlyPunctuation | PS4/cipher.py:64 | `strip` removes only punctuation, and what it keeps starts and ends with something else. |
| Cipher.StripLeftDrops | PS4/cipher.py:64 | `lstrip` returns a suffix, and everything it dropped is punctuation. |
| Cipher.StripRightDrops | PS4/cipher.py:64 | `rstrip` returns a prefix, and everything it dropped is punctuation. |
| Cipher.StripLeftSkips | PS4/cipher.py:64 | Leading punctuation makes no difference to `lstrip`. |
| Cipher.StripRightSkips | PS4/cipher.py:64 | Trailing punctuation makes no difference to `rstrip`. |
| Cipher.StripLeftKeepsTail | PS4/cipher.py:64 | When `lstrip` of a text leaves something, `lstrip` of that text followed by more keeps all that follows. |
| Cipher.PunctuationHasNoCapitals | PS4/cipher.py:63-64 | Lower-casing leaves punctuation unchanged. |
| Cipher.IsWord | PS4/cipher.py:48-66 | `is_word` holds only when the lower-cased, stripped word is in the list. That looked-up form has no capital letter and no punctuation at either end. |
| Cipher.IsWordIgnoresCaseAndPunctuation | PS4/cipher.py:48-66 | `is_word` of a word wrapped in punctuation, in any letter case, equals `is_word` of the lower-case word. |
| Cipher.IsDecoded | PS4/cipher.py:296-312 | `is_decoded` is true exactly when every whitespace-separated token passes `is_word`. |
| Cipher.BlankIsDecoded | PS4/cipher.py:304-312 | A text without tokens counts as decoded. |
| Cipher.TryShift | PS4/cipher.py:286-289 | One round of the search is true exactly when the decoding with that shift is all words. |
| Cipher.FirstTrue | PS4/cipher.py:283-294 | The search over shifts stops at the first success: every position before the result fails, and the result succeeds unless it is the end. |
| Cipher.FirstDecoding | PS4/cipher.py:283-294 | The least decoding shift from a start point, or 28: it decodes, and no smaller shift does. |
| Cipher.FindBestShift | PS4/cipher.py:267-294 | `find_best_shift` returns the least shift in 0..27 whose decoding is all words, or 28 when there is none. |
| Cipher.GoodPrefixLen | PS4/cipher.py:445-449 | The number of leading tokens that are words: all of them are words, and the next one is not. |
| Cipher.FindGoodWords | PS4/cipher.py:439-450 | `find_good_words` joins, by single spaces, the longest prefix of tokens that are all words. |
| Cipher.LeadingWords | PS4/cipher.py:444-449 | The loop collects exactly the tokens before the first one that is not a word. |
| Cipher.GoodWordsRoundTrip | PS4/cipher.py:443-450 | Splitting the result gives back the valid leading tokens. The result is empty exactly when the first token is not a word. |
| Cipher.JoinNonEmpty | PS4/cipher.py:450 | Joining a list whose first token is non-empty gives a non-empty string. |
| CourseAdvisor.BetterIsStrictWeakOrder | PS9/course_advisor.py:64-76 | `cmpValue` and `cmpWork` are irreflexive, asymmetric and transitive, and so is the relation of being incomparable. |
| CourseAdvisor.SortedMeaning | PS9/course_advisor.py:64-76 | Sorted by `cmpValue` means values never increase. Sorted by `cmpWork` means work never decreases. |
| CourseAdvisor.NotBetterThanNewLeader | PS9/course_advisor.py:99-101 | When the inner loop takes a new leader, nothing the old leader beat can beat the new one. |
| CourseAdvisor.CmpValue | PS9/course_advisor.py:64-69 | `cmpValue` never prefers a subject to itself, and never prefers one of two subjects with equal value. |
| CourseAdvisor.CmpWork | PS9/course_advisor.py:71-76 | `cmpWork` never prefers a subject to itself, and never prefers one of two subjects with equal work. |
| CourseAdvisor.DictSort | PS9/course_advisor.py:87-106 | `dictSort` leaves the keys a permutation of the input, sorted best first: no key is beaten by a later one. |
| CourseAdvisor.SwapExtendsOrder | PS9/course_advisor.py:104-106 | Swapping the best remaining key into place extends the sorted prefix by one and keeps the multiset of keys. |
| CourseAdvisor.FindBest | PS9/course_advisor.py:95-102 | The inner loop returns a position from i on whose key no later key beats. |
| CourseAdvisor.SelectEntries | PS9/course_advisor.py:134 | The dictionary built from the chosen keys holds exactly those keys, each with the subject's own entry. |
| CourseAdvisor.GreedyPick | PS9/course_advisor.py:126-137 | The greedy choice takes only listed keys, and its work stays within a non-negative budget. |
| CourseAdvisor.GreedyAdvisor | PS9/course_advisor.py:108-137 | `greedyAdvisor` sorts a permutation of the keys best first, then returns the dictionary of the greedy choice from that order. Every entry of the result is the subject's own, and with a non-negative `maxWork` the result holds keys listed once each whose total work is at most `maxWork`. |
| CourseAdvisor.GreedyTake | PS9/course_advisor.py:126-137 | The selection loop over the sorted keys returns the dictionary of `GreedyPick`, with the running total equal to the work taken. |
| CourseAdvisor.GreedySkipsOnlyWhenFull | PS9/course_advisor.py:129-135 | A key is taken exactly when the work taken before it, plus its own, stays within `maxWork`. |
| CourseAdvisor.GreedyWithinBudget | PS9/course_advisor.py:113 | The total work of the greedy selection is at most `maxWork`, and every entry is the subject's own. |
| CourseAdvisor.PermutationNoDuplicates | PS9/course_advisor.py:87-106 | Sorting a list of keys without repeats leaves none. |
| CourseAdvisor.GreedyPickNoDuplicates | PS9/course_advisor.py:129-135 | The greedy choice from keys without repeats takes each key at most once. |
| CourseAdvisor.Pow2 | PS9/course_advisor.py:159 | Powers of two are positive. |
| CourseAdvisor.Zeros | PS9/course_advisor.py:151-152 | A padding string of k zeros. |
| CourseAdvisor.BinaryLength | PS9/course_advisor.py:148-150 | A number below 2^d has at most d binary digits. |
| CourseAdvisor.Bits | PS9/course_advisor.py:142-153 | The result of `dToB(n, d)` has length max(d, the bit length of n), which is d when n < 2^d. |
| CourseAdvisor.DToB | PS9/course_advisor.py:142-153 | The two loops of `dToB` compute `Bits(n, d)`. |
| CourseAdvisor.BinaryDigits | PS9/course_advisor.py:148-150 | The first loop yields binary digits whose value is n, or 0 when n is not positive. |
| CourseAdvisor.ZerosDontCount | PS9/course_advisor.py:151-152 | Leading zeros do not change the value. |
| CourseAdvisor.BitsValue | PS9/course_advisor.py:142-153 | `dToB(n, d)` is a string of binary digits whose value is n. `dToB(0, d)` is d zeros. |
| CourseAdvisor.MaskRoundTrip | PS9/course_advisor.py:142-153 | Round trip: every string of binary digits is `dToB` of its own value, padded to its own length. |
| CourseAdvisor.Pick | PS9/course_advisor.py:164-169 | The subset a template selects holds only items, and no more of them than the template is long. |
| CourseAdvisor.PowerSet | PS9/course_advisor.py:155-170 | The power set has 2^len(items) elements. |
| CourseAdvisor.GenPset | PS9/course_advisor.py:155-170 | The loops of `genPset` compute `PowerSet`: element i is selected by the digits of `dToB(i, len(items))`. |
| CourseAdvisor.Templates | PS9/course_advisor.py:159-162 | The first loop lists `dToB(i, len(items))` for every i below 2^len(items), each of length len(items). |
| CourseAdvisor.PickItems | PS9/course_advisor.py:165-168 | The inner loop takes the items at the template's `1` positions, in order. |
| CourseAdvisor.PowerSetComplete | PS9/course_advisor.py:155-170 | Every selection by a template of len(items) binary digits is in the power set, at the index the template stands for. |
| CourseAdvisor.PowerSetStartsEmpty | PS9/course_advisor.py:159-162 | The first element of the power set is the empty selection. |
| CourseAdvisor.PowerSetEndsFull | PS9/course_advisor.py:159-162 | The last element of the power set is all the items. |
| CourseAdvisor.NoneSelected | PS9/course_advisor.py:166-168 | An all-zeros template selects nothing. |
| CourseAdvisor.AllSelected | PS9/course_advisor.py:166-168 | An all-ones template selects every item it covers. |
| CourseAdvisor.AllOnesValue | PS9/course_advisor.py:159-162 | An all-ones template stands for 2^len - 1. |
| CourseAdvisor.PowerSetInSubjects | PS9/course_advisor.py:184-185 | Every element of the power set of the keys holds only subjects. |
| CourseAdvisor.Totals | PS9/course_advisor.py:191-195 | The inner loop sums the value and the work of a selection. |
| CourseAdvisor.ToDict | PS9/course_advisor.py:202-205 | The final loop builds the dictionary of the chosen keys. |
| CourseAdvisor.SelectBest | PS9/course_advisor.py:188-199 | `bestSet` stays `None` exactly when no selection within the budget has positive value. Otherwise it is the first selection of greatest value within the budget. |
| CourseAdvisor.BruteForceAdvisor | PS9/course_advisor.py:172-205 | `bruteForceAdvisor` fails, iterating `None`, exactly when no selection within the budget has positive value. Otherwise it returns the dictionary of the first most valuable selection within the budget. |
| CourseAdvisor.BruteForceBeatsEverySelection | PS9/course_advisor.py:188-199 | The brute-force choice is worth at least as much as every selection of the subjects within the budget. |
| CourseAdvisor.NothingSelectedMeansNoGain | PS9/course_advisor.py:189 | When the brute force ends with nothing, no selection within the budget has positive value. |
| RssFilter.IdCounter.constructor | PS5/rssfilter.py:57 | The class counter starts at 0. |
| RssFilter.NewStory | PS5/rssfilter.py:55-67 | An empty guid is replaced by the current counter, which then goes up by one. A non-empty guid is kept and the counter is unchanged. The other fields are stored as given. |
| RssFilter.Blank | PS5/rssfilter.py:105-113 | Replacing punctuation by spaces keeps the length and changes exactly the punctuation. |
| RssFilter.IsWordIn | PS5/rssfilter.py:105-113 | `is_word_in` can hold only for a non-empty word without whitespace. |
| RssFilter.WholeWordFound | PS5/rssfilter.py:105-113 | A word of letters and digits standing between whitespace, punctuation or the ends of the text is found by `is_word_in`, in any letter case. |
| RssFilter.OnlyWholeWordsMatch | PS5/rssfilter.py:105-113 | A word that `is_word_in` finds is non-empty, with no whitespace and no punctuation. |
| RssFilter.IsWordInIgnoresCase | PS5/rssfilter.py:105-113 | `is_word_in` does not depend on the case of the word. |
| RssFilter.ContainsWitness | PS5/rssfilter.py:184-193 | A phrase contained in a text occurs at some index of it. |
| RssFilter.OccursContained | PS5/rssfilter.py:184-193 | A phrase occurring at an index is contained. |
| RssFilter.Contains | PS5/rssfilter.py:190 | Python's `phrase in text` holds for the empty phrase, and otherwise only when the phrase is no longer than the text. |
| RssFilter.ContainsMeaning | PS5/rssfilter.py:184-193 | Python's `in` on strings holds exactly when the phrase occurs at some index. |
| RssFilter.WordTriggersReadOneField | PS5/rssfilter.py:116-135 | Title, subject and summary triggers each read only their own field. |
| RssFilter.Evaluate | PS5/rssfilter.py:116-193 | A word trigger never fires for an empty word or on an empty field. An empty phrase fires on every story. |
| RssFilter.PhraseTriggerMeaning | PS5/rssfilter.py:180-193 | A phrase trigger fires exactly when the phrase occurs, case-sensitively, in the subject, the title or the summary. |
| RssFilter.Copies | PS5/rssfilter.py:212-216 | The inner loop adds only copies of the story, and at least one exactly when some trigger fires. |
| RssFilter.FilterStories | PS5/rssfilter.py:201-218 | `filter_stories` computes `Filtered`. |
| RssFilter.FilteredMembers | PS5/rssfilter.py:201-218 | A story is in the result exactly when it is in the input and some trigger fires on it. |
| RssFilter.CopiesPerFiringTrigger | PS5/rssfilter.py:212-216 | A story gets one copy per trigger that fires on it. |
| RssFilter.FilteredMultiplicity | PS5/rssfilter.py:201-218 | Each story appears as often as it appears in the input, times the number of triggers that fire on it. |
| RssFilter.FilteredKeepsOrder | PS5/rssfilter.py:210-216 | The result for a prefix of the stories is a prefix of the result, so story order is kept. |
| RssFilter.KeptLines | PS5/rssfilter.py:235-240 | Every kept line is non-empty, ends in a non-space character and does not start with `#`. |
| RssFilter.KeptLinesHaveWords | PS5/rssfilter.py:235-249 | Every kept line has a first word, so `line.split()[0]` cannot fail. |
| RssFilter.ReadTriggerConfig | PS5/rssfilter.py:225-293 | `readTriggerConfig`, given the file's lines, computes `Config`. This covers the `IndexError` of a line with too few words and the `UnboundLocalError` of an undefined NOT, AND or OR operand. |
| RssFilter.KeepLines | PS5/rssfilter.py:235-240 | The first loop keeps the right-stripped lines that are neither blank nor comments, in order. |
| RssFilter.ParseLines | PS5/rssfilter.py:246-291 | The second loop applies each kept line in turn and ends with the first exception, as `Run` says. |
| RssFilter.RunStopsAtError | PS5/rssfilter.py:248-291 | The first failing line ends the parse. |
| RssFilter.ApplyLine | PS5/rssfilter.py:249-291 | Handling one line agrees with `Step`. |
| RssFilter.FindNotOperand | PS5/rssfilter.py:266-269 | The NOT loop agrees with `NotOperand`. |
| RssFilter.FindPair | PS5/rssfilter.py:272-276 | The AND and OR loop, with its `if`/`elif`, agrees with `PairScan`. |
| RssFilter.AppendNamed | PS5/rssfilter.py:288-291 | The ADD loops append `AddAll` to the output list. |
| RssFilter.LastNamedMeaning | PS5/rssfilter.py:266-268 | An operand lookup yields the last definition of the name, or the previous binding when the name was never defined. |
| RssFilter.PairScanMeaning | PS5/rssfilter.py:272-276 | For two different operands, the scan yields the last definition of each, or the previous bindings. |
| RssFilter.UndefinedNamesIgnored | PS5/rssfilter.py:288-291 | An ADD line of names never defined appends nothing. |
| RssFilter.NamedAbsent | PS5/rssfilter.py:289-291 | An undefined name contributes nothing. |
| RssFilter.AddInListedOrder | PS5/rssfilter.py:288-291 | When each listed name has exactly one definition, ADD appends exactly those triggers, in the listed order. |
| RssFilter.NotWithUndefinedOperand | PS5/rssfilter.py:265-270 | A NOT of an undefined name negates the stale `t1` left by an earlier line, or fails with `UnboundLocalError` when there is none. |
| RssFilter.NotWithDefinedOperand | PS5/rssfilter.py:265-270 | A NOT of a name defined earlier defines the negation of that name's last definition. |
| Robots.Trunc | PS6/robots.py:92-93 | `int()` truncates toward zero. |
| Robots.GridSize | PS6/robots.py:75-83 | A width-by-height grid has width×height tiles, or none when a side is not positive. |
| Robots.InRoomTile | PS6/robots.py:143-154 | A position inside the room lies on one of the room's tiles. |
| Robots.CleanedChangesOneTile | PS6/robots.py:94-96 | Cleaning sets the tile under the position to clean, and no other tile changes. |
| Robots.CleanIdempotent | PS6/robots.py:94-96 | Cleaning the same position twice is the same as once. |
| Robots.InRoomCleanKeepsTiles | PS6/robots.py:94-96 | Cleaning at a position inside the room keeps the set of tiles. |
| Robots.CleanCountBounded | PS6/robots.py:119-129 | There are never more clean tiles than tiles. |
| Robots.CleanCountStep | PS6/robots.py:94-96 | One clean adds exactly that tile to the clean tiles, so the count grows by 1 exactly when the tile was dirty, and never falls. |
| Robots.RoundedStartLeavesRoom | PS6/robots.py:131-141 | A draw of width - 0.01 rounds to x = width. That start position is outside the room, and cleaning at it adds a tile, so the room then has width×height + 1 tiles. |
| Robots.StartPositionInRoom | PS6/robots.py:131-141 | The corrected start position, rounded down to one decimal, is inside the room and keeps the tile set. |
| Robots.Floor1Below | PS6/robots.py:137-138 | Rounding a draw in [0, n) down to one decimal stays in [0, n). |
| Robots.RectangularRoom.constructor | PS6/robots.py:68-83 | A new room has exactly the width×height grid of tiles, all dirty. |
| Robots.RectangularRoom.CleanTileAtPosition | PS6/robots.py:85-96 | The tile table becomes `Cleaned(old tiles, pos)`. |
| Robots.RectangularRoom.IsTileCleaned | PS6/robots.py:100-108 | Returns the stored state of tile (m, n): clean exactly when (m, n) is a clean tile. A missing tile is a `KeyError`. |
| Robots.RectangularRoom.GetNumTiles | PS6/robots.py:111-116 | For the room's grid, the number of tiles is width×height. |
| Robots.RectangularRoom.GetNumCleanedTiles | PS6/robots.py:119-129 | The counting loop returns the number of clean tiles, at most the number of tiles. |
| Robots.Robot.constructor | PS6/robots.py:164-180 | A robot starts at `getRandomPosition` as written, `RandomPosition(u, v)`, rounded to the nearest tenth, and cleans the tile it is on. That start can lie on the far wall (see `RoundedStartLeavesRoom`). |
| Robots.Robot.UpdateStandard | PS6/robots.py:232-252 | A next position inside the room moves the robot there and cleans its tile, keeping the direction. Otherwise the position and the tiles are unchanged, and only the direction changes. |
| Robots.Robot.UpdateRandomWalk | PS6/robots.py:376-392 | The direction always changes. The robot moves and cleans only when the next position is inside the room. |
| Hangman.LettersLeftFrom | PS2/hangman.py:55-60 | The unguessed letters from the i-th on, in strictly increasing order, and all of them. |
| Hangman.LettersLeft | PS2/hangman.py:51-60 | `letters_left` holds exactly the lower-case letters not yet guessed, in alphabetical order. |
| Hangman.CheckGuess | PS2/hangman.py:62-67 | `check_guess(word, g)` is true exactly when g is one character that occurs in the word. |
| Hangman.CheckWord | PS2/hangman.py:69-83 | `check_word` has the word's length. Position i shows `word[i]` when it has been guessed and `_` otherwise. |
| Hangman.WinTest | PS2/hangman.py:102 | For a word without `_`, the shown word equals the word exactly when every character has been guessed. |
| Hangman.RevealMonotone | PS2/hangman.py:113-116 | Another guess never hides a revealed position. |
| Hangman.Step | PS2/hangman.py:108-124 | After a loop pass, the shown word is `check_word` of the guessed list. |
| Hangman.RepeatedGuess | PS2/hangman.py:109-119 | A repeated guess changes neither the guessed list nor the guesses left. |
| Hangman.NewGuess | PS2/hangman.py:110-124 | A new guess is recorded. It costs one guess exactly when it is not a letter of the word. |
| Hangman.GuessesOnlyFall | PS2/hangman.py:102-124 | Over the whole game, the guesses left never go up and the guessed list only grows. |
| Hangman.Play | PS2/hangman.py:102-124 | Each pass of the loop adds at most one entry to the guessed list. After at least one pass, the shown word is `check_word` of the guessed list. |
| Hangman.AllTypedEndsGame | PS2/hangman.py:102 | Once every character of the word has been typed, the loop has stopped. |
| Hangman.PlayGame | PS2/hangman.py:85-124 | The loop reads at most the inputs given and ends in the state `Play` describes. If it stops before the inputs run out, the word is revealed or the guesses are gone. |
| VirusSim.Reproduce | PS8/virus_sim.py:57-81 | A child exists exactly when the birth draw succeeds, and it has the parent's `maxBirthProb` and `clearProb`. |
| VirusSim.SurvivorsMeaning | PS8/virus_sim.py:136-139 | A virus survives exactly when its clearance draw fails. |
| VirusSim.SurvivorsKeepOrder | PS8/virus_sim.py:136-139 | The survivors keep their original order. |
| VirusSim.OffspringFromSurvivors | PS8/virus_sim.py:146-151 | There is at most one child per survivor, and each child equals its parent. |
| VirusSim.SimplePatient.constructor | PS8/virus_sim.py:91-105 | The patient stores the viruses and the maximum population. |
| VirusSim.SimplePatient.Update | PS8/virus_sim.py:118-154 | The survivors are kept in order, followed by their offspring, and the new population size is returned. With `maxPop` zero the density division fails after the survivors are stored. |
| VirusSim.UpdateAtMostDoubles | PS8/virus_sim.py:146-154 | The population after `update` is at most twice the survivors. |
| VirusDrugSim.IsResistantTo | PS8/virus_drug_sim.py:49-61 | Returns the stored resistance, or a `KeyError` exactly when the drug is not a key. |
| VirusDrugSim.CheckAllMeaning | PS8/virus_drug_sim.py:106-109 | The flag loop fails exactly when some listed drug is not a key. Otherwise it is true exactly when the virus resists every listed drug. |
| VirusDrugSim.CheckResistance | PS8/virus_drug_sim.py:105-109 | The flag loop agrees with `CheckAll`. |
| VirusDrugSim.ChildResistances | PS8/virus_drug_sim.py:113-119 | The child's resistances have exactly the parent's keys. |
| VirusDrugSim.NoChildWithoutResistance | PS8/virus_drug_sim.py:106-112 | A virus that does not resist some active drug has no child, whatever the draws. |
| VirusDrugSim.ChildInherits | PS8/virus_drug_sim.py:111-121 | A child exists only after a successful birth draw by a resistant parent. It keeps `maxBirthProb`, `clearProb` and `mutProb`, and each resistance is kept or flipped by its mutation draw. |
| VirusDrugSim.MutateResistances | PS8/virus_drug_sim.py:113-119 | The mutation loop computes `ChildResistances`. |
| VirusDrugSim.AddDrugProperties | PS8/virus_drug_sim.py:163-164 | Adding a prescription keeps the list free of duplicates and extends it. The new drug is in the list, and nothing else is added. Adding the same drug twice is the same as once. |
| VirusDrugSim.ResistCountMeaning | PS8/virus_drug_sim.py:188-199 | When every virus has every listed drug as a key, the count is the number of viruses resistant to all listed drugs. |
| VirusDrugSim.ResistCountBounds | PS8/virus_drug_sim.py:188-199 | The count is at most the population, and an empty drug list counts everyone. |
| VirusDrugSim.OffspringBounded | PS8/virus_drug_sim.py:232-236 | A reproduction round that raises nothing yields at most one child per survivor that resists every active drug. |
| VirusDrugSim.Patient.constructor | PS8/virus_drug_sim.py:134-147 | A new patient has the viruses, the maximum population and no drugs. |
| VirusDrugSim.Patient.AddPrescription | PS8/virus_drug_sim.py:150-164 | The drug list becomes `AddDrug(old drugs, newDrug)`: the drug is appended only when absent. |
| VirusDrugSim.Patient.GetResistPop | PS8/virus_drug_sim.py:177-199 | The nested flag and counter loops compute `ResistCount`. A drug missing from a virus's resistances is a `KeyError`. |
| VirusDrugSim.Patient.Update | PS8/virus_drug_sim.py:201-240 | The survivors are kept in order. `maxPop` zero gives `ZeroDivisionError`. A `KeyError` in `reproduce` propagates. Otherwise the offspring are appended and the new population size is returned. |
| VirusDrugSim.ReproduceAll | PS8/virus_drug_sim.py:231-236 | The reproduction loop computes `Offspring`, stopping at the first `KeyError`. |
| VirusDrugSim.ReproduceStep | PS8/virus_drug_sim.py:104-123 | `reproduce` with its flag loop and mutation loop agrees with `Reproduce`. |
| PyStr.SplitJoin | PS4/cipher.py:443-450 | Splitting words joined by single spaces gives the words back. |
| PyStr.SplitConcat | PS4/cipher.py:304 | Splitting distributes over a concatenation cut at whitespace. |
| PyStr.SplitNonEmpty | PS5/rssfilter.py:249 | A line ending in a non-space character has at least one word. |
| PyStr.Lower | PS4/cipher.py:63 | `lower` keeps the length and lower-cases exactly the capital letters. |
| PyStr.Split | PS4/cipher.py:443 | Every piece `split` returns is non-empty and free of whitespace. |
| PyStr.Join | PS4/cipher.py:450 | `join` of no words is empty. Otherwise the result starts with the first word and ends with the last. |
| PyStr.RStrip | PS5/rssfilter.py:235 | `rstrip` returns a prefix of the line that does not end in whitespace, and everything it drops is whitespace. |

## Left out

- `load_map` and the graph class: `load_map` reads a file, and `graph.py` is not part of this model. The graph is an adjacency map from each node to its ordered list of (child, weight) pairs, and the `__main__` test block is left out.
- `allPaths` and `dfSearch` take the prefix path as a parameter, as the source does, but the Python default arguments `path = []` and `memo = None` are modelled only through `DirectedDfs`, which passes an empty path and a fresh memo.
- ShortestPath.DfsFindsOptimum: the source promises no optimality for `directedDFS`. The lemma proves it only under the hypotheses that hold in its LARGE_DIST test cases, because as written it fails otherwise (see Findings).
- `load_words`, `random_word`, `random_string`, `random_scrambled` and `get_fable_string` in PS4: these are file reads and random choices.
- `find_best_shifts`, `find_best_shifts_rec` and `decrypt_fable`: they print, and the backtracking loop of `find_best_shifts_rec` need not terminate.
- `cmpRatio`: it uses float division, which can divide by zero.
- `loadSubjects` and `printSubjects`: these are file I/O and printing.
- Python 2's `dict.keys()` order is arbitrary, so it is a parameter (`keyOrder`) of `GreedyAdvisor` and `BruteForceAdvisor`.
- `process`, `translate_html`, the `Popup` GUI and `main_thread`: these are a network fetch, a GUI and thread polling.
- The file reading in `readTriggerConfig`: the model takes the file's lines, already read.
- The `NewsStory` getters: they are field reads of the datatype.
- `Position.getNewPosition`: it uses float trigonometry, so the robots take the next position as a parameter.
- The random start direction and the direction draws: they are parameters.
- `runSimulation` and `showPlot1` to `showPlot3`: they are float averages and plotting.
- Positions are exact reals rather than floats, and `round(x, 1)` is rounding half away from zero on exact reals.
- The robot getters and setters: they are field reads and writes.
- Robots.StartPosition: the corrected start position is proved inside the room, but the Robot constructor keeps the source's rounding, so a modelled robot can start on the far wall as the source's can.
- Robots.RectangularRoom.IsPositionInRoom: it is a predicate equal to its body, with no ensures. Its meaning is stated by `InRoom` and the lemma `Robots.InRoomTile`.
- The width and height of a room: they are taken as integers, and the `int(width)` conversion of non-integer arguments is not modelled.
- `load_words`, `choose_word`, `raw_input` and the printing of PS2: the hidden word and the typed guesses are parameters.
- The random draws of PS8, `random.random() < p`: they become boolean parameters. These are the clearance draw of `doesClear`, the birth draw and the mutation draws.
- The population density and the birth probability product: they are floats and only decide a draw, so they are not modelled. Only the division by zero they can cause is kept.
- The PS8 drivers: `simulationWithoutDrug`, the `simulation*` and `runSimulation*` drivers, `getTrialAverage` and the plotting are left out.
- The birth draw in `ResistantVirus.reproduce`: it is taken even when the virus is not resistant, whereas Python's `and` skips it. This only changes which random numbers are consumed.
- VirusSim.SimplePatient.GetTotalPop: it is the length of the list, with no ensures beyond its body.
- VirusDrugSim.Patient.GetPrescriptions: it is a field read of `drugs`, with no ensures beyond its body. The insertion-order property is stated by `VirusDrugSim.Patient.AddPrescription` and `VirusDrugSim.AddDrugProperties`.
- PS1 (`credit.py`): float money arithmetic, bisection and interactive input.
- PS3 (`CPUplayer.py`): a wrapper over helpers that are not part of this model.
- PS10 (`clustering.py`): floating-point distances and random seeding.

## Findings

| source | as written | input that shows it | evidently intended | confidence | as-written member | corrected member |
|---|---|---|---|---|---|---|
| PS11/shortest_path.py:189-194 | The first arrival at `end` stores its length in the memo even when that path breaks a bound. Later branches at least that long are pruned, including feasible ones. | Edges s→e (1, 100), s→a (1, 0), a→e (1, 0), with maxTotalDist 10 and maxDistOutdoors 0. The path s, e is infeasible and records 1. The branch through a is then pruned at length 1 ≥ 1. `directedDFS` raises `ValueError`, although s, a, e is feasible. | Record only feasible lengths, as later writes already do. The search then finds a shortest feasible path whenever one exists. | high (proved; not executed) | ShortestPath.FirstArrivalCounterexample | ShortestPath.FeasibleOnlyMemoFindsOptimum |
| PS6/robots.py:131-141 | `getRandomPosition` rounds `uniform(0, width)` to one decimal, which can give x = width. The robot starts outside the room, and `cleanTileAtPosition` adds a new tile (width, y). | Width 20, with the uniform draw 19.99 for x. The start is x = 20.0, and `getNumTiles` becomes width×height + 1. | A start position inside the room. `StartPosition`, one decimal rounded down, is proved to stay inside the room and keep the tile set. The Robot constructor keeps the rounding as written. | medium (proved on exact reals; not executed) | Robots.RoundedStartLeavesRoom | Robots.StartPositionInRoom |
