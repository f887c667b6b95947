# NCAA All-American eligibility analysis: a verified model

This project models the computing core of a study of NCAA Division I wrestling All-Americans (the eight place-winners, places 1 to 8, of every weight class and season from 2000 to 2025). Each record gives the wrestler, the school, the season, the weight, the place, the seed (a number, or "US" for unseeded), the eligibility class (Fr, So, Jr, Sr, SSr) and the placement-seed delta.

The model covers the following steps of the analysis notebook, and the renderer of the report's statistics:

- cleaning the eligibility column and validating the table;
- the career-window filter, which keeps only wrestlers whose whole career is observable;
- the multi-AA funnel, multi-weight counts and weight-change transitions;
- eligibility combinations per tier and placement strings;
- the "improved every year" list;
- the six placement archetypes and the Last Chance kinds, with their tallies by number of finishes;
- bracket statistics:
  - seed parsing;
  - chalk place pairs;
  - exact seed-place matches;
  - delta sums per year and per bracket;
  - the ten "most chalk" brackets;
  - the brackets with the most All-Americans of each class;
- the report renderer, which replaces `{{ site.data.report_stats.a.b }}` placeholders with values looked up in a JSON document.

Modules, one per file:

| module | file | what it holds |
|---|---|---|
| `Results` | results.dfy | `Option`, `Result` |
| `Text` | text.dfy | Python string operations the core uses: `strip` with Python's whitespace set, `lower`/`upper`/`title`, `str(int)`, `int(str)`, `split`, `join` |
| `Records` | records.dfy | the record, eligibility order, group-by, `unique()`, a stable `sort_values`, chronological order |
| `Cleaning` | cleaning.dfy | eligibility normalisation, range validation and the known-class filter, on rows whose columns are already converted |
| `CareerWindow` | career_window.dfy | `career_fully_in_window`, `career_is_complete`, `df_filtered` |
| `MultiAA` | multi_aa.dfy | funnel, multi-weight, transitions, combos, placement strings |
| `Archetypes` | archetypes.dfy | `improved_every_year`, `classify_archetype`, the tally loop |
| `Brackets` | brackets.dfy | bracket statistics |
| `ReportRender` | report_render.dfy | `get_nested`, `render_report_stats`, and the brace-free rendering that leaves the leftover-placeholder check nothing to find |

How the source's forms are modelled:

- Loops that accumulate become methods with loop invariants. Each method is proved equal to a specification function, and the lemmas state the properties of that function.
- pandas tables become sequences of records.
- Python dictionaries become maps.
- Exceptions become `Result` values.

## Model

| member | source | states |
|---|---|---|
| Text.Strip | notebooks/analysis.py:70 | the stripped text starts and ends with a non-whitespace character (Python's `isspace` set) and is no longer than the input |
| Text.LStrip | notebooks/analysis.py:70 | what `lstrip` keeps does not start with whitespace |
| Text.LStripDrops | notebooks/analysis.py:70 | `lstrip` keeps a suffix of the input and drops only whitespace |
| Text.RStrip | notebooks/analysis.py:70 | `rstrip` keeps a prefix of the input that does not end with whitespace |
| Text.RStripDrops | notebooks/analysis.py:70 | `rstrip` drops only whitespace |
| Text.StripSlice | notebooks/analysis.py:70 | `strip` keeps one contiguous slice of the input and everything dropped on either side is whitespace |
| Text.StripIdempotent | notebooks/analysis.py:70 | stripping twice is stripping once |
| Text.Lower | notebooks/analysis.py:70-72 | not called by the source: the case-insensitive comparison used to state what `strip().title()` and the `Ssr` fix accept (`Cleaning.NormalizeAccepts`, `Cleaning.RowElig`). Each character is lower-cased in place, length kept |
| Text.Upper | notebooks/analysis.py:1963 | each character is upper-cased in place, length kept |
| Text.TitleAt | notebooks/analysis.py:70 | `title()` upper-cases a character that follows no cased character and lower-cases one that follows a cased character |
| Text.TitleIdempotent | notebooks/analysis.py:70 | title-casing twice is title-casing once |
| Text.TitleKeepsSpaces | notebooks/analysis.py:70 | title-casing keeps every whitespace position |
| Text.NatToString | notebooks/analysis.py:994 | `str` of a natural number is a non-empty run of digits with no leading zero |
| Text.NatToStringValue | notebooks/analysis.py:994 | the digits of `str(n)` denote n |
| Text.IntToString | notebooks/analysis.py:994 | `str` of an integer is non-empty and has no whitespace |
| Text.ParseIntRoundTrip | notebooks/analysis.py:1966 | `int(str(i)) == i` for every integer i |
| Text.ParseIntNegative | notebooks/analysis.py:1966 | `int("-" + digits)` is minus the digits' value |
| Text.Split | scripts/test_report_render.py:38 | `split` returns at least one piece, and no piece holds the separator |
| Text.SplitJoin | scripts/test_report_render.py:38 | joining the pieces of a split with the separator gives back the text |
| Text.JoinSplit | notebooks/analysis.py:995 | splitting a join of separator-free pieces gives back the pieces |
| Records.Rank | notebooks/analysis.py:46 | the rank of a class is its index in `ELIGIBILITY_ORDER` |
| Records.RowsOf | notebooks/analysis.py:976-977 | `df[df["Wrestler"] == w]` holds exactly the wrestler's records of the table |
| Records.RowsOfIsFilter | notebooks/analysis.py:976-977 | the wrestler's rows are the table's rows of that wrestler in table order, repeats kept (the order-keeping filter) |
| Records.Filter | notebooks/analysis.py:977 | a boolean-mask selection keeps only rows that pass, and no more rows than it was given |
| Records.FilterCount | notebooks/analysis.py:977 | a boolean-mask selection keeps every copy of a passing row and no copy of any other |
| Records.FilterConcat | notebooks/analysis.py:977 | selecting from two stretches of rows is selecting from each, in order |
| Records.FilterDistinct | notebooks/analysis.py:1285-1291 | selecting from a list without repeats gives a list without repeats |
| Records.IndexOf | notebooks/analysis.py:1365 | `list.index` is the first position of the value |
| Records.Dedup | notebooks/analysis.py:979 | `unique()` keeps each element exactly once |
| Records.DedupInFirstOrder | notebooks/analysis.py:979 | `unique()` lists the elements in the order of their first occurrence |
| Records.DedupFull | notebooks/analysis.py:979 | `unique()` keeps the length exactly when the elements are distinct |
| Records.DistinctPermutation | notebooks/analysis.py:980 | a permutation of a distinct sequence is distinct |
| Records.Wrestlers | notebooks/analysis.py:976 | the wrestlers of the table, each once |
| Records.WrestlersInFirstRowOrder | notebooks/analysis.py:976 | the wrestlers come in the order of their first rows in the table |
| Records.WrestlerHasRows | notebooks/analysis.py:976-977 | every listed wrestler has at least one record |
| Records.SortBy | notebooks/analysis.py:664 | `sort_values` returns a key-sorted permutation of its input |
| Records.InsertSorted | notebooks/analysis.py:664 | inserting into a sorted sequence keeps it sorted |
| Records.SortByStable | notebooks/analysis.py:664 | elements with equal keys keep their input order |
| Records.WithKeyPositions | notebooks/analysis.py:664 | two elements of equal key appear in the same relative order before and after sorting |
| Records.SortTwice | notebooks/analysis.py:664 | sorting by a minor key then stably by a major key orders lexicographically |
| Records.SortBySameOrder | notebooks/analysis.py:664 | two keys that order every pair alike sort identically |
| Records.ChronoKeyIsLexicographic | notebooks/analysis.py:663-664 | `Year*10 + class index` orders by year, then class, and equal keys mean equal year and class |
| Records.Chronological | notebooks/analysis.py:663-664 | the chronological order is a permutation of the career |
| Records.ChronologicalOrdered | notebooks/analysis.py:663-664 | the chronological order is ordered by year, then by class |
| Records.Places | notebooks/analysis.py:1407 | the place list lines up with the records |
| Records.Careers | notebooks/analysis.py:1403-1407 | one career per wrestler, the k-th being the k-th wrestler's, in the order of the wrestlers' first rows |
| Cleaning.ParseElig | notebooks/analysis.py:103-111 | a class name is read back to exactly the class it names, and any other text reads as no class |
| Cleaning.CanonicalNamesFixed | notebooks/analysis.py:70-72 | normalisation leaves the five canonical names unchanged |
| Cleaning.NormalizeIdempotent | notebooks/analysis.py:70-72 | normalisation (strip, title case, `Ssr`→`SSr`) is idempotent |
| Cleaning.NormalizeAccepts | notebooks/analysis.py:70-72 | text is normalised to class e exactly when, stripped, it equals e's name ignoring case (both directions) |
| Cleaning.NormalizePaddedLower | notebooks/analysis.py:70-72 | `" ssr "` becomes SSr |
| Cleaning.NormalizeAllUpper | notebooks/analysis.py:70-72 | `"SSR"` becomes SSr |
| Cleaning.NormalizeMissing | notebooks/analysis.py:70-72 | a missing cell (`"nan"`) is no class |
| Cleaning.RowElig | notebooks/analysis.py:70-72 | a row's class is the one its cell spells up to case and padding |
| Cleaning.KeepKnown | notebooks/analysis.py:104-111 | the rows kept are exactly the converted rows whose class is known |
| Cleaning.KeepKnownIsFilter | notebooks/analysis.py:104-111 | the k-th kept row is the k-th raw row with a known class, converted with that class: order and repeats kept |
| Cleaning.MinYear | notebooks/analysis.py:92 | the minimum year is a lower bound attained by some row |
| Cleaning.MaxYear | notebooks/analysis.py:92 | the maximum year is an upper bound attained by some row |
| Cleaning.Clean | notebooks/analysis.py:66-111 | cleaning succeeds exactly when the table is non-empty and every year is in 1999..2025 and every place is in 1..8. An empty table or a year below 1999 fails the minimum-year assertion. Accepted rows keep these bounds, and the accepted table is the known-class filter of the input |
| CareerWindow.BoundsRule | notebooks/analysis.py:479-486 | a class's year bounds are the seasons whose whole career (first season back, senior season ahead) lies in 1999..2025 |
| CareerWindow.CareerFullyInWindow | notebooks/analysis.py:489-496 | the loop returns true exactly when every record is within its class's bounds, and a false names an out-of-bounds record |
| CareerWindow.LatestIndex | notebooks/analysis.py:500-503 | `idxmax` picks the first record with the greatest year |
| CareerWindow.IsCompleteRule | notebooks/analysis.py:506-520 | a career is complete when its latest class is Sr or SSr, or when its senior season falls in 2023 or earlier |
| CareerWindow.ValidWrestlers | notebooks/analysis.py:523-526 | `valid_wrestlers` holds exactly the wrestlers whose career is complete and fully in the window, each once |
| CareerWindow.KeepWrestlers | notebooks/analysis.py:523-526 | filtering a wrestler list keeps exactly those that pass |
| CareerWindow.FilterKeepsWholeCareers | notebooks/analysis.py:527 | `df_filtered` keeps a wrestler's records all or none |
| CareerWindow.FilteredWrestlers | notebooks/analysis.py:527 | the wrestlers of `df_filtered` are exactly `valid_wrestlers` |
| CareerWindow.OutOfBoundsDropsCareer | notebooks/analysis.py:525-527 | one out-of-bounds record removes the whole career |
| CareerWindow.FilteredRowsValid | notebooks/analysis.py:523-527 | every kept record is in bounds and its career is complete |
| CareerWindow.FilterCareers | notebooks/analysis.py:527 | the filtered table is a sub-multiset of the table |
| CareerWindow.KeepRowsIsFilter | notebooks/analysis.py:527 | keeping the rows of kept careers is the order-keeping filter on `isin(valid_wrestlers)`: same rows, same order, repeats kept |
| CareerWindow.FilterCareersIsFilter | notebooks/analysis.py:527 | `df_filtered` is exactly the table's rows whose wrestler is a kept career, in table order and with their repeats |
| MultiAA.Funnel | notebooks/analysis.py:590-596 | five funnel counts, none above the number of wrestlers |
| MultiAA.TiersPartition | notebooks/analysis.py:584-596 | the 1×..5×+ counts add up to all wrestlers, and the 2×..5×+ counts add up to the multi-AA count |
| MultiAA.FunnelCoversEveryone | notebooks/analysis.py:580-596 | the funnel sums to the number of unique wrestlers |
| MultiAA.WeightCountBounds | notebooks/analysis.py:629 | a wrestler's number of distinct weights is between 1 and their number of finishes |
| MultiAA.MultiWeightByN | notebooks/analysis.py:629-638 | the multi-weight count is the exactly-2, exactly-3 and exactly-4 counts plus the wrestlers at five or more weights, who fall outside `multi_weight_by_n` |
| MultiAA.MakeTransition | notebooks/analysis.py:666-680 | a transition records both weights and places, is "up" exactly when the weight rose, and is "improved" or "worse" exactly when the place fell or rose |
| MultiAA.TransitionsExactly | notebooks/analysis.py:666-680 | a career's transitions are exactly its consecutive pairs whose weights differ |
| MultiAA.TransitionsIndexed | notebooks/analysis.py:666-680 | the k-th transition is the one at the k-th weight change: one transition per change, equal transitions repeated |
| MultiAA.ChangeIndicesIncreasing | notebooks/analysis.py:666-667 | the weight changes are taken in increasing position |
| MultiAA.SomeChangeIffTwoWeights | notebooks/analysis.py:629-669 | some consecutive pair changes weight exactly when the career has two or more weights |
| MultiAA.MultiWeightIffTransitions | notebooks/analysis.py:629-669 | a wrestler has two or more weights exactly when their chronological career yields a transition |
| MultiAA.ScanCareer | notebooks/analysis.py:666-680 | the pair loop builds the career's transitions |
| MultiAA.CollectTransitions | notebooks/analysis.py:660-681 | the loop over multi-weight wrestlers builds all transitions in order |
| MultiAA.DirectionsSplit | notebooks/analysis.py:685-690 | moves up plus moves down are all transitions |
| MultiAA.OutcomesSplit | notebooks/analysis.py:691-696 | improved plus worse plus same are all the moves of a direction |
| MultiAA.WeightMoveStats | notebooks/analysis.py:684-697 | the statistics exist exactly when there is a transition, and count them all |
| MultiAA.Combo | notebooks/analysis.py:978-980 | the combination holds exactly the classes of the career, in eligibility order |
| MultiAA.SortedDedupMembers | notebooks/analysis.py:979-980 | the sorted unique classes are distinct and are the classes present |
| MultiAA.ClassesAmongOrdered | notebooks/analysis.py:980 | filtering the eligibility order keeps it ordered |
| MultiAA.ClassOrderUnique | notebooks/analysis.py:980 | two class lists in eligibility order with the same members are equal |
| MultiAA.ComboIsOrderFiltered | notebooks/analysis.py:980 | sorting the unique classes equals filtering `ELIGIBILITY_ORDER` by presence |
| MultiAA.ComboFull | notebooks/analysis.py:1013 | the combination has one class per finish exactly when no class repeats |
| MultiAA.BuildTiers | notebooks/analysis.py:975-981 | one tier entry per wrestler, in order |
| MultiAA.TierMembers | notebooks/analysis.py:1013 | the n× tier keeps exactly the entries with n finishes in n distinct classes |
| MultiAA.TierMembersIsFilter | notebooks/analysis.py:1013 | the n× tier is those entries in the order of `wrestler_tiers`, each once per entry |
| MultiAA.InTier | notebooks/analysis.py:1013 | a wrestler is in the n× tier exactly when they have n finishes in n distinct classes |
| MultiAA.LastPlaces | notebooks/analysis.py:987-990 | the class-to-place map has exactly the classes present |
| MultiAA.LastIndexOf | notebooks/analysis.py:989-990 | the index found is the last record of the class |
| MultiAA.LastPlacesAreLast | notebooks/analysis.py:989-990 | the map keeps the place of the last record of each class |
| MultiAA.FillPlaces | notebooks/analysis.py:988-990 | the loop builds that map |
| MultiAA.ShownClasses | notebooks/analysis.py:991-993 | four columns, five when SSr is present |
| MultiAA.Parts | notebooks/analysis.py:994 | one part per shown class |
| MultiAA.PlacementString | notebooks/analysis.py:986-995 | the method builds the placement string of the wrestler |
| MultiAA.HasClassChronological | notebooks/analysis.py:1457 | sorting a career keeps its classes |
| MultiAA.IntToStringNotDNP | notebooks/analysis.py:1464 | a place's text is never "DNP" |
| MultiAA.PlacementFields | notebooks/analysis.py:1456-1465 | the string has 4 fields, 5 with SSr. A field reads "DNP" exactly when the wrestler has no finish in that class, and otherwise is `str` of the place of the class's chronologically last record |
| MultiAA.PlacementFieldsReadBack | notebooks/analysis.py:1465 | splitting the `-`-joined fields gives them back |
| MultiAA.LastPlacesPositive | notebooks/analysis.py:1459-1460 | every stored place is positive |
| MultiAA.PartsWithoutDash | notebooks/analysis.py:1464 | no field holds a dash |
| Archetypes.MinOf | notebooks/analysis.py:1349 | `min` is a lower bound present in the list |
| Archetypes.ShortMatchesNothing | notebooks/analysis.py:1333-1372 | a list shorter than 3 matches no archetype |
| Archetypes.MatchingAmong | notebooks/analysis.py:1331-1374 | the archetypes found are exactly those in the list that match |
| Archetypes.MatchingAmongOrdered | notebooks/analysis.py:1331-1374 | they come in the order of the checks |
| Archetypes.Classify | notebooks/analysis.py:1326-1374 | `classify_archetype` returns exactly the matching archetypes, in check order, each once, and nothing for fewer than 3 places |
| Archetypes.ContinuedProgressionRule | notebooks/analysis.py:1333-1335 | Continued Progression holds exactly for 3+ places each better than the one before, and then every earlier place is worse than every later one |
| Archetypes.EarlyPeakRule | notebooks/analysis.py:1362-1368 | Early Peak holds exactly when the first best place is in the first half and the last place is at least two worse |
| Archetypes.RegressionSurvivorRule | notebooks/analysis.py:1344-1356 | Regression Survivor holds exactly when there is a drop of 3 or more places, followed later by a place within one of the best before the drop |
| Archetypes.ProgressionExamples | notebooks/analysis.py:1333-1342 | 4-3-2-1 is Continued Progression; 4-3-3-1 is Plateau Breaker but not Continued Progression; 2-1 is nothing |
| Archetypes.RegressionExamples | notebooks/analysis.py:1344-1356 | 1-4-1 is a Regression Survivor |
| Archetypes.RegressionWithinOne | notebooks/analysis.py:1344-1356 | 1-4-2 is a Regression Survivor (within one of the best) |
| Archetypes.NoRecoveryExample | notebooks/analysis.py:1344-1356 | 1-4-3 is not a Regression Survivor |
| Archetypes.EliteExamples | notebooks/analysis.py:1358-1360 | 2-3-4 is Consistent Elite; 1-2-3 is not |
| Archetypes.WinExamples | notebooks/analysis.py:1370-1372 | 7-5-1 finishes on a win; 7-5-2 does not |
| Archetypes.FiveThreeOne | notebooks/analysis.py:1326-1374 | 5-3-1 is Continued Progression and Finish on a Win |
| Archetypes.FiveThreeOneOnly | notebooks/analysis.py:1326-1374 | 5-3-1 is no other archetype |
| Archetypes.YearOrder | notebooks/analysis.py:1286 | the year sort is a year-ordered permutation |
| Archetypes.YearOrderIsChronological | notebooks/analysis.py:1286 | with one class per season, sorting by year is the chronological order |
| Archetypes.ImprovedWrestlers | notebooks/analysis.py:1276-1292 | the "improved every year" list holds exactly the given (multi-AA) wrestlers whose year-ordered places strictly fall |
| Archetypes.ImprovedWrestlersIsFilter | notebooks/analysis.py:1283-1291 | the list keeps the given wrestlers' order and multiplicity, so each wrestler is listed at most once |
| Archetypes.ImprovedIsContinuedProgression | notebooks/analysis.py:1276-1292 | for a career of 3+ finishes with one class per season, being on the "improved every year" list is being a Continued Progression (both directions) |
| Archetypes.LastChanceImpliesSenior | notebooks/analysis.py:1420-1432 | COVID and Championship Last Chances are Senior Last Chances, and only one-finish careers qualify |
| Archetypes.LastChanceExamples | notebooks/analysis.py:1420-1432 | a 2022 SSr champion is all three kinds; a 2019 Sr champion is Championship but not COVID |
| Archetypes.BucketKeyValues | notebooks/analysis.py:1411 | `str(min(n, 5))` is "3", "4" or "5", and it is a bucket exactly when n ≥ 3 |
| Archetypes.TotalIsBucketSum | notebooks/analysis.py:1435-1437 | an archetype's total is the sum of its three buckets |
| Archetypes.OneBucketEach | notebooks/analysis.py:1414-1417 | a wrestler is listed in at most one bucket of an archetype |
| Archetypes.CountArchetypes | notebooks/analysis.py:1414-1417 | one career's archetypes increment their bucket count and name list |
| Archetypes.CountLastChance | notebooks/analysis.py:1420-1432 | one career increments the Last Chance kinds it qualifies for |
| Archetypes.NoCounts | notebooks/analysis.py:1382-1391 | every archetype starts with zero in each bucket |
| Archetypes.NoNames | notebooks/analysis.py:1399-1400 | every archetype starts with empty name lists |
| Archetypes.NoLastChanceCounts | notebooks/analysis.py:1392-1396 | every Last Chance kind starts at zero |
| Archetypes.NoLastChanceNames | notebooks/analysis.py:1401 | every Last Chance kind starts with no names |
| Archetypes.TallyCareers | notebooks/analysis.py:1403-1432 | after the loop, each bucket count and name list is that bucket's members, and each Last Chance count and list is that kind's members |
| Archetypes.SumBuckets | notebooks/analysis.py:1435-1437 | each archetype's total is its number of matching wrestlers |
| Archetypes.TallyArchetypes | notebooks/analysis.py:1403-1442 | the whole tally: bucket counts, names, totals and Last Chance counts agree with their definitions |
| Brackets.ExactSeedAgrees | notebooks/analysis.py:2200-2203 | `count_exact_matches` and `convert_seed_to_int` read every seed cell alike |
| Brackets.SeedRoundTrip | notebooks/analysis.py:1961-1968 | a numeric seed reads back as its number |
| Brackets.SeedExamples | notebooks/analysis.py:1961-1968 | empty, "US" and " us" are no seed |
| Brackets.SeedNumberExamples | notebooks/analysis.py:1961-1968 | "3" is seed 3; "x" is no seed |
| Brackets.BracketKeysMembers | notebooks/analysis.py:1982 | the bracket keys are exactly the (year, weight) pairs of the table |
| Brackets.BracketKeysOrdered | notebooks/analysis.py:1982 | the keys come sorted by year, then weight, without repeats |
| Brackets.BracketRows | notebooks/analysis.py:1982 | a bracket's rows are exactly the table's rows of that year and weight |
| Brackets.BracketRowsIsFilter | notebooks/analysis.py:1982 | in table order, repeats kept |
| Brackets.InPair | notebooks/analysis.py:1986 | the pair rows are exactly the rows placing k or k+1 |
| Brackets.InPairIsFilter | notebooks/analysis.py:1986 | in the group's order, repeats kept |
| Brackets.PairChalkRule | notebooks/analysis.py:1986-1990 | a pair is chalk exactly when it has two rows, placed k and k+1 and seeded k and k+1 |
| Brackets.SwappedNotChalk | notebooks/analysis.py:1986-1990 | a final won by the 2 seed over the 1 seed is not chalk |
| Brackets.UnseededNotChalk | notebooks/analysis.py:1986-1990 | a final with an unseeded finalist is not chalk |
| Brackets.SeededFinalIsChalk | notebooks/analysis.py:1986-1990 | a final won by the 1 seed over the 2 seed is chalk |
| Brackets.BracketChalk | notebooks/analysis.py:1986-2001 | a bracket yields one chalk entry exactly when its pair is chalk |
| Brackets.ChalkListEntries | notebooks/analysis.py:1982-2055 | every chalk entry records seeds and places k, k+1 of a listed bracket |
| Brackets.CheckPair | notebooks/analysis.py:1986-2001 | one bracket's check appends its chalk entry, if any |
| Brackets.ChalkOver | notebooks/analysis.py:1982-2055 | the loop builds the four chalk lists |
| Brackets.DetectChalk | notebooks/analysis.py:1982-2055 | the chalk lists over all brackets in key order |
| Brackets.CountExactMatches | notebooks/analysis.py:2196-2208 | the loop counts the rows placing exactly at their seed |
| Brackets.ExactCountsAgree | notebooks/analysis.py:2196-2208 | that count is the number of rows whose parsed seed equals their place |
| Brackets.YearlySums | notebooks/analysis.py:1891-1897 | one sum for each year from 2000 to 2025 |
| Brackets.YearlySumsConserve | notebooks/analysis.py:1891-1897 | the yearly sums add up to the delta of all rows from 2000 to 2025 |
| Brackets.BracketSumsConserve | notebooks/analysis.py:2192 | the bracket sums add up to the delta of the whole table |
| Brackets.BracketDeltaOfRows | notebooks/analysis.py:2192 | a bracket's sum is the delta of its rows |
| Brackets.Analysis | notebooks/analysis.py:2210-2214 | one merged row per bracket |
| Brackets.AnalysisRows | notebooks/analysis.py:2210-2214 | each merged row belongs to a listed bracket and carries that bracket's delta sum and an exact-match count no larger than the bracket |
| Brackets.LowestTen | notebooks/analysis.py:2217-2220 | the top ten has min(10, n) rows |
| Brackets.LowestTenLowest | notebooks/analysis.py:2217-2220 | the ten are brackets of the analysis, and every bracket left out has a sum no lower than each one kept |
| Brackets.ClassCountPositive | notebooks/analysis.py:2480 | a bracket counts a class exactly when a row of that class is in it |
| Brackets.MaxCountIsMax | notebooks/analysis.py:2487 | the maximum count bounds every bracket's count and is attained |
| Brackets.MaxKeysMembers | notebooks/analysis.py:2488 | the brackets with the maximum are exactly those whose count equals it |
| Brackets.MaxKeysOrdered | notebooks/analysis.py:2489 | they are sorted by year, then weight |
| Brackets.LineTextStartsWithPlace | notebooks/analysis.py:2506 | a wrestler line begins with the place followed by ". ", and the place reads back from it |
| Brackets.BracketLinesOrdered | notebooks/analysis.py:2498-2506 | a bracket's lines are a permutation of its rows' lines, sorted by place |
| Brackets.LinesOfPermutation | notebooks/analysis.py:2498-2506 | permuted rows give permuted lines |
| Brackets.FormatBracket | notebooks/analysis.py:2498-2506 | the loop formats the bracket's rows in place order |
| Brackets.LinesInOrder | notebooks/analysis.py:2501-2506 | the loop gives one line per row, in order |
| Brackets.ScanMax | notebooks/analysis.py:2487 | the loop finds the maximum count over the brackets |
| Brackets.AddDetail | notebooks/analysis.py:2493-2512 | one bracket's detail is appended exactly when it reaches the maximum |
| Brackets.CollectDetails | notebooks/analysis.py:2492-2512 | the loop collects the details of the maximal brackets in key order |
| Brackets.ClassMaxPresent | notebooks/analysis.py:2486-2517 | a class's entry exists exactly when some row has that class |
| Brackets.ClassMaxMeaning | notebooks/analysis.py:2486-2517 | an entry's maximum is at least 1 and bounds every bracket. Its details are those of exactly the brackets that reach it, in key order |
| Brackets.ClassMaxScan | notebooks/analysis.py:2486-2517 | the per-class scan computes that entry |
| Brackets.MaxBracketsMeaning | notebooks/analysis.py:2485-2517 | the result succeeds exactly when every class is present and holds each class's entry; otherwise it names the first missing class |
| Brackets.MaxBracketsByClass | notebooks/analysis.py:2483-2517 | the loop over the five classes computes that result |
| ReportRender.Step | scripts/test_report_render.py:26 | `data[key]` succeeds exactly on an object holding the key, with its value. It raises KeyError on an object without the key and TypeError on anything else |
| ReportRender.GetNested | scripts/test_report_render.py:23-27 | the loop computes the lookup of the whole path |
| ReportRender.LookupConcat | scripts/test_report_render.py:23-27 | an empty path yields the data, and looking up p then q is looking up p+q |
| ReportRender.LookupFailsAt | scripts/test_report_render.py:23-27 | a failed lookup fails at a key whose prefix resolved, with that key's error |
| ReportRender.SpaceRunMaximal | scripts/test_report_render.py:32 | `\s*` consumes a maximal run of whitespace |
| ReportRender.KeyRunMaximal | scripts/test_report_render.py:32 | `[A-Za-z0-9_.]+` consumes a maximal run of key characters |
| ReportRender.MatchAt | scripts/test_report_render.py:32 | a match at i spans text inside the content that starts with `{` |
| ReportRender.MatchAtShape | scripts/test_report_render.py:32 | a match at i is `{{`, spaces, the prefix, a non-empty key path, spaces, `}}`, and its text has the placeholder form |
| ReportRender.MatchAtComplete | scripts/test_report_render.py:32 | conversely, every such shape at i is matched there, with that path |
| ReportRender.ScanPositioned | scripts/test_report_render.py:35 | `finditer` yields matches left to right, without overlap, each a match at its start |
| ReportRender.ScanGaps | scripts/test_report_render.py:35 | no match starts at a position `finditer` skips over |
| ReportRender.ScanNone | scripts/test_report_render.py:35 | content with no match yields no matches |
| ReportRender.FindFrom | scripts/test_report_render.py:41 | the search finds the first occurrence at or after i, or reports that there is none |
| ReportRender.ReplaceAfterBraceFree | scripts/test_report_render.py:41 | `replace(pat, rep, 1)` replaces a brace-opened occurrence when no brace precedes it |
| ReportRender.RenderReportStats | scripts/test_report_render.py:30-45 | the loop computes the rendering |
| ReportRender.RenderWithoutPlaceholders | scripts/test_report_render.py:30-45 | content without a placeholder renders to itself |
| ReportRender.RenderFromOk | scripts/test_report_render.py:35-43 | rendering succeeds exactly when every placeholder's path resolves |
| ReportRender.RenderFromFirstError | scripts/test_report_render.py:39-43 | a failed rendering reports the first placeholder whose path fails, with the lookup's own error |
| ReportRender.RenderFromFill | scripts/test_report_render.py:35-45 | the replacement loop puts each value at its own placeholder's place |
| ReportRender.RenderSubstitutes | scripts/test_report_render.py:30-59 | every value lands in its placeholder's place, and no brace is left in the rendering, hence no placeholder and no `{{` for the leftover pattern at line 58 to find |
| ReportRender.ScanSkip | scripts/test_report_render.py:35 | `finditer` passes over positions where nothing matches |
| ReportRender.NestedScan | scripts/test_report_render.py:32-35 | in `{{site.data.report_stats.a{{site.data.report_stats.b}}}}` only the inner placeholder matches |
| ReportRender.NestedReplace | scripts/test_report_render.py:41 | replacing the inner placeholder's first occurrence with `5` gives `{{site.data.report_stats.a5}}` |
| ReportRender.NestedLeavesPlaceholder | scripts/test_report_render.py:30-59 | that content renders, with b = 5, to text that holds a placeholder, which the leftover check then rejects |

## Left out

- Plotting, chart styling, HTML/markdown/JSON file writing and console output (most of `notebooks/analysis.py`, and `main` at `scripts/test_report_render.py:48-69`, including the file reads and the pct sanity checks) are not modelled: they are I/O.
- Percentages, averages (e.g. average age) and rolling or Gaussian smoothing are not modelled: they are floating point.
- Values serialised to JSON are the model's maps and counts, not their text form.
- Case mapping and digit recognition are ASCII only: Python's Unicode `title`, `upper`, `lower` and `int` are not modelled for non-ASCII text. Whitespace is Python's full `isspace` set.
- pandas' default `sort_values` (quicksort) is not stable. The model sorts stably, which is the same result whenever keys do not tie. Where keys can tie (equal bracket delta sums before `head(10)`), the model's order among the tied elements may differ from pandas'. For the top ten, only order-independent facts are stated (`Brackets.LowestTenLowest`).
- `groupby` result order is modelled as key order for brackets, and as first appearance for `unique()`. Multi-column sorts such as `sort_values(["_order", "Year", "Eligibility Year"])` (`notebooks/analysis.py:664`, `:1406`) are stable in pandas, so the model agrees there.
- CareerWindow.ValidWrestlers: `groupby("Wrestler")` (`notebooks/analysis.py:501`, `:524`) yields `valid_wrestlers` in name order; the model lists them in order of first appearance. Only membership and `len` of that list are used downstream, so no result depends on the difference.
- The secondary sort columns (`Year`, `Eligibility Year`) after `_order` are not modelled, because `_order` already determines them.
- `ELIG_YEAR_BOUNDS.get(elig, (0, 0))` is not modelled for an unknown class: after cleaning, every class is known.
- Bucket keys are the integers 3, 4, 5 for the strings "3", "4", "5"; `Archetypes.BucketKeyValues` ties them to `str(min(n, 5))`.
- Brackets.YearlySums: rows of 1999 are not in the 2000–2025 frame, as in the source's left merge. The model states this but does not model the merge's NaN-then-`fillna(0)` as a separate step.
- Seed text with non-ASCII digits is not modelled; `int()` is modelled for ASCII digits, single underscores between digits, a sign and surrounding whitespace.
- The `astype` conversions (`notebooks/analysis.py:75-83`) are not modelled: a raw row arrives with its year, weight, place and delta already integers, so a missing or non-integer cell, on which `astype(int)` raises, has no counterpart.
- ImprovedWrestlers: takes the multi-AA wrestlers as its parameter and keeps their order; the source's `multi_aa_wrestlers.index` comes from a `groupby` and is sorted by name. Only the list's membership and size (`n_improved`) are used downstream.
- The exact wording of assertion and error messages is not modelled; errors are datatype values naming their cause.
- ReportRender.Str: `str()` of a list or dictionary value is a parameter (`repr`), since Python's container repr is not modelled; JSON floats are not modelled.
- ReportRender.RenderSubstitutes: "no placeholder is left" is proved only when every brace of the content belongs to a placeholder and every value's text is brace-free. Without that condition it is false. For example, `{{site.data.report_stats.a{{site.data.report_stats.b}}}}` with b = 5 renders to `{{site.data.report_stats.a5}}`, a new placeholder; the source's check at `scripts/test_report_render.py:57-59` rejects such a rendering. `ReportRender.NestedLeavesPlaceholder` proves this example.
- The multi-weight display strings (`multi_weight_display_str`), the combo-table HTML builders and the NC combo tables are not modelled: they are formatting. The NC tables reuse the same tier logic as the AA tables.
