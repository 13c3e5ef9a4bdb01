# Name synthesis engine of `words` — a Dafny model

`words/main.go` invents names from a list of example names. Each name is
cut into fragments in three ways: 2-grams, 3-grams, and "vowel groups" (a cut
after every vowel run that does not start the name). The fragments are recorded into three transition
models (fragment → next fragment → count) and into three part tables
(prefixes, joins, suffixes). A new name is then produced in one of two ways.
A Markov walk draws each next fragment from the row of the previous one,
weighted by the counts. A parts pick takes one key from each of two or three
part tables.

This project models that engine in Dafny, as the code is written. The
modules follow the pieces of the program:

- `Common` (`common.dfy`): the shared vocabulary. A `Count` is Go's
  `map[string]uint`, a `GramMap` is `map[string]count`. The file also
  defines table totals, concatenation of fragments, and iteration orders of
  a map.
- `Sampler` (`sampler.dfy`): `count.RandomKey`, the weighted sampler.
- `NGrams` (`ngram.dfy`): the fixed-size segmenter `NGram`.
- `VowelGroups` (`vowels.dfy`): the vowel-run segmenter `SplitOnVowelGroups`,
  with the regular expression `[AEIOUYaeiouy]+` modelled directly.
- `Models` (`model.dfy`): `FillGrams` and the prefix/join/suffix counting.
- `Corpus` (`corpus.dfy`): the per-name body of `main`, as an `Analysis`
  object whose methods update the six tables in place.
- `Generators` (`generate.dfy`): `GenerateMarkovName`, `GeneratePartsName`
  and the choice of algorithm by name.

Every operation that loops or mutates state in the source is a `method`:
the loops keep their loops, and `AddName`, `AddSplit`, `RecordSplit` and
`RecordParts` update the `Analysis` object's tables in place. Each method is proved equal to a reference function (`Grams`,
`VowelSplit`, `Recorded`, `RecordedParts`, `Expand`/`Pick`, `Walk`,
`Picks`). The lemmas state what those functions guarantee.

Randomness and Go's map iteration order are explicit inputs:

- A call `rand.Intn(n)` is `Intn(rnd, n) = rnd % n` for a given draw `rnd`.
  Every value in `[0, n)` comes from some draw, so every run of the program
  matches some choice of draws.
- The order in which a `range` over a map visits its keys is a given
  sequence. `IsKeyOrder` says that this sequence lists each key exactly once.
- `GenerateMarkovName` takes one draw and one set of row orders per call of
  `RandomKey`.

The code's quirks are kept and proved:

- `SplitOnVowelGroups("anna")` is `["anna"]`.
- `SplitOnVowelGroups("kara")` is `["ka", "a"]`: the byte after each cut is
  skipped.
- `NGram(s, 1)` makes its first fragment two runes long.
- With two or more slots, `RandomKey` never reads the last slot of its
  expanded array.
- `GeneratePartsName` ignores counts and never picks the last key of an
  iteration.

A few consequences of the code as written, which the model keeps:

- The byte after each cut is dropped (`start = index[1] + 1`, words/main.go:72).
  A vowel run that starts at byte 0 makes no cut, so nothing is dropped
  after it. There is no other split mode.
- With two or more slots, the sampler never reads the last slot of its
  expanded array, so its draws
  are not exactly proportional to the counts.
- A one-fragment split is still counted as a prefix (words/main.go:121-128).
- No minimum fragment length and no uniqueness filter exists anywhere in
  the analysis or the generators.

## Model

| member | source | states |
|---|---|---|
| Sampler.Intn | words/main.go:32 | the draw standing for `rand.Intn(n)` lies in [0, n), and every value of that range is the draw's own outcome |
| Sampler.RandomKey | words/main.go:19-33 | the nested loops build exactly `Expand(c, order)` (each key repeated count times, in iteration order) and the result is the slot `Pick` names: "" for an empty array, the only slot of a one-slot array, otherwise slot `rand.Intn(len-1)`; over a key order the result is "" when every count is zero, and otherwise a key with a positive count |
| Sampler.ExpandLength | words/main.go:20-25 | over a key order the expanded array has exactly as many slots as the counts add up to |
| Sampler.ExpandIsKeyMultiset | words/main.go:20-25 | over a key order every key occurs in the expanded array exactly as often as its count |
| Sampler.ExpandCount | words/main.go:20-25 | over any duplicate-free order a key occurs as often as its count if the order lists it, and not at all otherwise |
| Sampler.DrawWeights | words/main.go:26-32 | with two or more slots, the reachable slots (all but the last) hold each key as often as its count, minus one for the key in the last slot: the exact distribution of the draw |
| Sampler.PickSlot | words/main.go:29-32 | with two or more slots every draw reads a slot before the last one, and each such slot is read by some draw |
| Sampler.RandomKeyReaches | words/main.go:19-32 | every key with a positive count is returned for some iteration order and some draw |
| Sampler.NeverLastSlot | words/main.go:32 | for the table {a: 1, b: 1} iterated a, b, every draw returns "a": the last slot is never selected |
| NGrams.NGram | words/main.go:36-46 | the rune loop returns exactly `Grams(name, size)`: complete groups of `size` runes for `size >= 2`, the `index > 0`-guarded 1-grams for `size == 1` |
| NGrams.GramsShape | words/main.go:36-46 | for `size >= 2`: exactly L / size fragments, each exactly `size` runes long, which concatenate to the first size * (L / size) runes; the trailing partial group is dropped |
| NGrams.UnitGramsShape | words/main.go:38-43 | for `size == 1` the guard at index 0 makes the first fragment the first two runes, every later fragment is one rune, and a name of fewer than two runes yields nothing |
| NGrams.AnnaBigrams | words/main.go:36-46 | the 2-gram split of "anna" is ["an", "na"] |
| VowelGroups.VowelRuns | words/main.go:66-67 | the spans are exactly the leftmost-longest matches of `[AEIOUYaeiouy]+`: maximal vowel runs, in order, and every vowel byte lies in one of them |
| VowelGroups.SplitOnVowelGroups | words/main.go:65-79 | the match loop returns exactly `VowelSplit(name)`: a cut after every run that does not start at byte 0, resuming at `index[1] + 1`, and a remainder kept only when `start < len(name) - 1` |
| VowelGroups.InnerEndsExact | words/main.go:69-74 | the cut positions are exactly the ends of the vowel runs that do not start at byte 0, in both directions |
| VowelGroups.VowelSplitPieces | words/main.go:68-77 | fragment k is the slice from byte 0 or one byte past the previous cut, up to the k-th cut, so the fragments are in order and do not overlap; the remainder, if present, runs to the end of the name |
| VowelGroups.CutNonEmpty | words/main.go:70-77 | cutting at increasing positions never yields an empty fragment, and a remainder has at least two bytes |
| VowelGroups.VowelSplitNonEmpty | words/main.go:70-77 | every fragment of the split is non-empty and a final remainder has at least two bytes |
| VowelGroups.VowelSplitNoInnerRun | words/main.go:68-78 | a name with no vowel run starting after byte 0 splits into [name] when it has two or more bytes and into [] otherwise |
| VowelGroups.VowelSplitCount | words/main.go:68-78 | the split has at most one fragment more than the name has vowel runs |
| VowelGroups.SplitOfVCCV | words/main.go:68-78 | a vowel-consonant-consonant-vowel name is not split: the run at byte 0 does not cut |
| VowelGroups.SplitOfCVCV | words/main.go:68-78 | a consonant-vowel-consonant-vowel name loses its third byte, the one after the first run |
| VowelGroups.AnnaVowelGroups | words/main.go:65-79 | SplitOnVowelGroups("anna") is ["anna"] |
| VowelGroups.KaraVowelGroups | words/main.go:65-79 | SplitOnVowelGroups("kara") is ["ka", "a"]; the "r" is dropped |
| Models.FillGrams | words/main.go:49-61 | the loop leaves the model equal to `Recorded(old, gramList)`: one increment of `gramMap[prev][gram]` per fragment, with `prev` starting at "" |
| Models.RecordedCount | words/main.go:49-61 | each count grows by exactly the number of times its (predecessor, fragment) transition occurs in the list, the first predecessor being ""; no other count changes, and an empty list changes nothing |
| Models.RecordedKeys | words/main.go:52-57 | a row exists afterwards exactly when it existed before or its key precedes some fragment; an entry exists exactly when it existed before or its transition occurs |
| Models.RecordedWellFormed | words/main.go:52-58 | recording keeps every row non-empty and every count at least 1 |
| Models.RecordedWeight | words/main.go:51-60 | the total of all counts grows by exactly the length of the fragment list |
| Models.Inc | words/main.go:124-128 | one occurrence of a key: the key is present afterwards, the total grows by one, and no other count changes |
| Models.IncAll | words/main.go:141-147 | counting a list of joins grows the total by the list's length |
| Models.IncAllCount | words/main.go:141-147 | counting a list of joins adds to each key exactly its number of occurrences in the list |
| Models.RecordedPartsTotals | words/main.go:119-149 | a non-empty split adds one prefix, one suffix when it has at least two fragments, and one join per strictly-middle fragment, so the three tables grow by the split's length in all; an empty split changes nothing |
| Models.RecordedPartsCounts | words/main.go:121-149 | for a non-empty split the first fragment gains one prefix count; with two or more fragments the last one also gains one suffix count and every key gains as many join counts as it occurs strictly inside, while a one-fragment split leaves suffixes and joins unchanged |
| Corpus.Analysis.AddName | words/main.go:116-150 | one name updates all six tables to `Learn(old tables, name)` |
| Corpus.Analysis.AddGrams | words/main.go:116-117 | the 2-gram and 3-gram models record the name's 2-grams and 3-grams |
| Corpus.Analysis.AddSplit | words/main.go:118-150 | the vowel-group model and the part tables record the name's vowel-group split, and the 2-gram and 3-gram models are left as they were |
| Corpus.Analysis.RecordSplit | words/main.go:119-150 | a non-empty split feeds the vowel-group model and the part tables; an empty split leaves both as they were; the 2-gram and 3-gram models are untouched |
| Corpus.Analysis.RecordParts | words/main.go:121-149 | the in-place prefix, suffix and join updates give `RecordedParts(old, vgs)` |
| Corpus.Analysis.CountJoins | words/main.go:140-148 | the join loop gives `IncAll(old joins, js)` |
| Corpus.Analysis.Ingest | words/main.go:111-151 | every line is analysed in order and empty lines are skipped: the tables become `LearnAll(old, names)` |
| Corpus.Analysis.constructor | words/main.go:103-108 | all six tables start empty, and the three transition models are new objects shared with nothing else |
| Corpus.Analyse | words/main.go:103-151 | a new analysis fed every line ends with the tables `LearnAll(Empty, names)`, and those tables are consistent: every transition model is well formed and the vowel-group start row equals the prefix table |
| Corpus.LearnConsistent | words/main.go:116-150 | one name keeps all three transition models well formed, keeps the start row of the vowel-group model equal to the prefix table, and keeps the vowel-group model's total equal to the three part tables' totals together |
| Corpus.LearnAllConsistent | words/main.go:111-151 | any corpus, starting from consistent tables, leaves them consistent |
| Corpus.EmptyConsistent | words/main.go:103-108 | the empty tables are consistent |
| Corpus.LearnWeights | words/main.go:116-120 | a name of n runes adds n / 2 bigram transitions, n / 3 trigram transitions and one vowel-group transition per fragment of its split |
| Corpus.LearnAllSkipsEmpty | words/main.go:112-115 | a corpus of empty lines changes nothing |
| Corpus.RecordedStartRow | words/main.go:50-58 | a list of non-empty fragments increments the start row once, for its first fragment |
| Generators.Walk | words/main.go:244-258 | after n iterations the walk holds between 1 and n + 1 keys |
| Generators.GenerateMarkovName | words/main.go:244-259 | the loop runs at most max(maxiter, 0) times and the result spells `Walk` over the draws; with real iteration orders it spells a walk of at most maxiter steps: its first key is one `RandomKey` can return from the start row, each next key one it can return from the row of the key before (`Drawn`), and it stops early only at a key with no row; with no start row the result is "" |
| Generators.WellFormedRowTotal | words/main.go:52-57 | every row of a model built by recording fragments has a positive total, so `RandomKey` on it never falls back to "" |
| Generators.WellFormedWalk | words/main.go:244-258 | in a well-formed model, such as the analysis builds, every step of a walk follows a transition with a positive count |
| Generators.WellFormedSpellsWalk | words/main.go:244-259 | a name spelling a walk through a well-formed model spells one whose every step has a positive count |
| Generators.WalkIsWalk | words/main.go:244-258 | with real iteration orders the walk the draws produce is a walk through the model in that sense |
| Generators.WalkStays | words/main.go:251-256 | once the walk reaches a dead end it stays there, as the early `return` does |
| Generators.NoStartRow | words/main.go:245-249 | without a start row the name is "" whatever the bound |
| Generators.WalkFinal | words/main.go:250-258 | ending at a dead end or at the bound gives the final name with all it promises |
| Generators.GeneratePartsName | words/main.go:263-276 | the result is the concatenation of one key per list, in list order, the key at position `rand.Intn(len(list) - 1)` of its iteration; any list with fewer than two keys makes `rand.Intn` panic, which is the error result |
| Generators.PicksAreKeys | words/main.go:264-273 | every picked key belongs to its list and is never the key the iteration visits last |
| Generators.PicksReach | words/main.go:266-273 | every key but the last of its order is picked by some draw, whatever the counts |
| Generators.KeyOrderLength | words/main.go:266-267 | an iteration order is as long as the map has keys, so `len(list)` bounds the positions |
| Generators.SelectAlgorithm | words/main.go:210-234 | exactly the five names vg3, 2gr, 3gr, pt2 and pt3 succeed and any other name fails with the fatal "Unknown name algorithm specified"; a Markov choice has a bound of at least 3 over one of the three transition models, a parts choice has two or three lists running from the prefixes to the suffixes. The body maps vg3, 2gr and 3gr to a Markov walk over the vowel-group, 2-gram or 3-gram model with bound 3, 6 or 4; pt2 and pt3 select the prefix and suffix lists, with the join list between them for pt3 |

## Left out

- Flag parsing, usage output and the generation loop that prints names
  (words/main.go:82-95, 236-238) are CLI plumbing.
- Opening the corpus, `bufio.Scanner` and its error handling
  (words/main.go:97-101, 110-112, 153-155) are I/O. `Ingest` takes the
  already-trimmed lines, and `strings.TrimSpace` is not modelled.
- JSON export and the file writes (words/main.go:157-199), and the stats
  printing (201-208), are serialisation and output.
- `math/rand`'s global source is replaced by explicit draws, and Go's
  randomised map iteration by explicit key orders. Probabilities are stated
  as slot counts (`DrawWeights`), not as a distribution.
- The `regexp` engine is not modelled. Vowel runs are found directly over
  the name's characters.
- UTF-8 is not modelled. One `char` stands for one rune in `NGram` and one
  byte in `SplitOnVowelGroups`. The two agree only for ASCII names.
- Counts are unbounded `nat`s. Go's `uint` (32 or 64 bits, by platform)
  wraps around only after 2^32 or 2^64 occurrences; that is not modelled.
- `log.Fatal` becomes the `Fail` result of `SelectAlgorithm`. The panic of
  `rand.Intn` becomes the `Fail` result of `GeneratePartsName`.
- NGrams.NGram: requires `size >= 1`. Go's `%` by zero panics, and `main`
  only passes 2 and 3.
- Generators.GenerateMarkovName: requires one iteration order for every
  row and one draw per `RandomKey` call. The walk property holds when those
  orders list each row's keys exactly once.
