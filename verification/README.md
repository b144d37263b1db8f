# Ludus leaderboard core, modelled in Dafny

This project models the two pure-logic parts of the volleyball league
leaderboard:

- **The fuzzy team-name classifier** (`src/lib/classify.ts`). `clean` turns a
  raw team name into a canonical key: it lower-cases the name, drops spaces
  and asterisks, and sorts the `/`-separated player names. `distance` is the
  recursive Levenshtein distance. `Classifier.getClass` hands out stable
  integer ids. It first tries an exact key hit. If there is none, it takes
  the id of the first stored key at minimal distance below 3. Otherwise it
  allocates the next id.
- **Round parsing and season aggregation** (`src/lib/ludus.ts`). `parseCsv`
  splits a sheet into a grid. `findFinalRank`, `extractFinalRank` and
  `getRank` read the standings column under the final-standings header.
  `extractMeta` reads sex, league and round number from a round name.
  `transposeToRows` groups rounds into segments wherever the round number
  drops. It transposes each segment's standings into a ranking table and
  carries a running rank across segments.

Modules, leaves first:

| file | module | models |
|---|---|---|
| `wrappers.dfy` | `Wrappers` | `Option` for `undefined`, `Result` for a thrown error |
| `strings.dfy` | `Strings` | `split`/`join` on a non-empty separator, the default string `sort` order, and insertion sort |
| `normalize.dfy` | `Normalize` | `clean` |
| `edit_distance.dfy` | `EditDistance` | `distance` and a table-driven evaluation of it |
| `classifier.dfy` | `Classification` | `Classifier`, `getClass`, `#fuzzyFind` |
| `csv.dfy` | `Csv` | `parseCsv` |
| `standings.dfy` | `Standings` | `findFinalRank`, `extractFinalRank`, `getRank`, `extractMeta`, `Round` |
| `season.dfy` | `Season` | `transpose`, `transposeToRows` |

Modelling choices:

- The module-level classifier instance and its bound `getClass` are replaced
  by an explicit `Classifier` value. Each call takes one and returns the next.
  The `Map` store is a sequence of `(key, id)` entries in insertion order,
  which is the order a JavaScript `Map` iterates in. `Valid` is the class's
  private invariant: unique keys, and ids in `[1, nextId)`. Every state
  reachable from `Fresh` satisfies it. It makes `store.get(key) || ...` a
  plain presence test, because a stored id is never 0.
- Grid cells are strings. Reading past the end of a row gives `None`, which
  stands for `undefined`. So a standings entry is an `Option<string>`, and a
  missing cell is collected rather than stopping the scan.
  `transpose` pads with `Some("")`.
- The header constant is the literal in the source: the UTF-8 bytes of
  "KONČNA RAZVRSTITEV" read as Windows-1252. The `Č` is therefore the two
  characters U+00C4 U+0152.
- `round` in the metadata is `None` where unary `+` gives NaN. All
  comparisons with NaN are false. `league` is `None` for a name with fewer
  than three parts.
- `transposeToRows` throws in two places, both modelled as `Failure`. One is
  `endsWith` on an undefined league. The other is a "b" league closing the
  first segment, where `result[result.length - 1]` is undefined. The loop is
  the fold `Process`, with one `Step` per round. The positional description
  built from `SegmentStart`, `RunningRank`, `ClosedPair` and `Expected` is
  proved equal to it.

Where the system's design description and the code differ, the model
follows the code:

- The code knows one header spelling.
- It reads the standings column to the first empty cell, with no cap of 8.
- It classifies no names while parsing a round.
- It has no roster fallback and extracts no games.
- The rank resets whenever a round's sex differs from the previous round's,
  whether or not a segment closed there.
- A "b" league subtracts the height of the previous table, that is, the
  longest standings list in that segment.

## Model

| member | source | states |
|---|---|---|
| `Normalize.Clean` | src/lib/classify.ts:1-3 | the key contains no space, no `*` and no ASCII upper-case letter |
| `Normalize.Lower` | src/lib/classify.ts:2 | `toLowerCase` keeps the length, leaves no ASCII capital, keeps every other character and maps `A`-`Z` to `a`-`z` |
| `Normalize.Strip` | src/lib/classify.ts:2 | `replace(/[ *]/g, '')` never lengthens the text, and a character survives exactly when it is in the text and is neither a space nor `*` |
| `Normalize.CleanSegments` | src/lib/classify.ts:2 | the key's `/`-segments are sorted and are a permutation of the input's lower-cased, stripped segments |
| `Normalize.CleanIdempotent` | src/lib/classify.ts:2 | cleaning a key again returns the same key |
| `Normalize.CleanEqualIff` | src/lib/classify.ts:2 | two names get the same key if and only if their stripped, lower-cased segments agree up to order |
| `Normalize.CleanSpacingAndOrder` | src/lib/classify.ts:2 | for any two player names, `x / y` and `y/x` get the same key, whatever the case |
| `Strings.Sort` | src/lib/classify.ts:2 | `sort()` yields a sorted permutation of the segments |
| `Strings.SortedUnique` | src/lib/classify.ts:2 | the sorted permutation is unique, so any correct sort gives the key `sort()` gives |
| `Strings.Split` | src/lib/ludus.ts:18 | `split` on a non-empty separator always returns at least one piece |
| `Strings.Join` | src/lib/classify.ts:2 | `join` starts with the first part |
| `Strings.SplitJoin` | src/lib/ludus.ts:18 | joining a `split` with its separator restores the string |
| `Strings.JoinSplit` | src/lib/classify.ts:2 | splitting a `/`-join of `/`-free segments restores the segments |
| `EditDistance.Dist` | src/lib/classify.ts:5-32 | the distance between two suffixes lies between the difference of their lengths and the longer length |
| `EditDistance.Distance` | src/lib/classify.ts:5-10 | `distance(a, b)` is at least the difference of the lengths and at most the longer length |
| `EditDistance.DistanceAtEnd` | src/lib/classify.ts:8-10 | once either index reaches its string's end, the distance is the other string's remaining length; `distance(a, "") == |a|` |
| `EditDistance.DistanceMetric` | src/lib/classify.ts:5-31 | the distance is zero exactly for equal strings, and it is symmetric |
| `EditDistance.ComputeDistance` | src/lib/classify.ts:11-30 | evaluating the recursion through a table of suffix distances gives the recursive distance |
| `EditDistance.PreviousRow` | src/lib/classify.ts:19-28 | one table row follows from the next by the match, insert, delete and substitute cases |
| `Classification.FreshValid` | src/lib/classify.ts:34-39 | a newly constructed classifier, with an empty store and `#nextId` 1, meets the class invariant |
| `Classification.Lookup` | src/lib/classify.ts:43 | `Map.get` finds the id stored under a key, and finds nothing exactly when the key is absent |
| `Classification.Fuzzy` | src/lib/classify.ts:52-63 | nothing is found exactly when every stored key is at distance 3 or more; otherwise the id comes from the first stored key at minimal distance |
| `Classification.Best` | src/lib/classify.ts:54-60 | the running best distance is at most 3, is at most every stored distance, and is attained when below 3 |
| `Classification.FuzzyFind` | src/lib/classify.ts:52-63 | the insertion-order scan with strict `<` returns the first-closest id within the threshold |
| `Classification.Classify` | src/lib/classify.ts:41-50 | the state stays valid; the key maps to the returned id; the id lies in `[1, nextId)`; no earlier key changes its id; `nextId` grows by at most 1, and only to allocate the returned id |
| `Classification.ClassifyOutcome` | src/lib/classify.ts:41-63 | a stored key returns its id and changes nothing; a new key near a stored one takes the first-closest id and allocates nothing; any other new key gets `nextId`, above every stored id, and `nextId` goes up by 1 |
| `Classification.GetClass` | src/lib/classify.ts:41-50 | the method computes `Classify` |
| `Classification.RepeatedCall` | src/lib/classify.ts:42-47 | a second call with the same raw name returns the same id and leaves the state alone |
| `Classification.SameKeySameId` | src/lib/classify.ts:41-47 | names that differ only in segment order, case, spaces or asterisks get the same id, also when classified one after the other |
| `Classification.ClassifyAll` | src/lib/classify.ts:34-50 | over a session every id lies in `[1, nextId)`; every name's key maps to its id; earlier keys keep their ids; the new ids are exactly `c.nextId ..` with none skipped |
| `Classification.StableIdentity` | src/lib/classify.ts:43-46 | within a session, names with equal keys always receive equal ids |
| `Csv.ParseCsv` | src/lib/ludus.ts:17-19 | there is at least one row, and every row has at least one cell |
| `Csv.ParseCsvRoundTrip` | src/lib/ludus.ts:17-19 | joining cells with `,` and rows with CRLF reproduces the text; no cell contains a comma |
| `Standings.FindFinalRank` | src/lib/ludus.ts:20-30 | the result is the first header cell in row-major order, or none exactly when no cell equals the header |
| `Standings.SearchFrom` | src/lib/ludus.ts:22-28 | a scan resumed at a position finds the first header cell at or after it |
| `Standings.ExtractFrom` | src/lib/ludus.ts:35-40 | the loop collects no empty cell and never reads past the last row |
| `Standings.ExtractFinalRank` | src/lib/ludus.ts:32-42 | entries are column `col+1` of rows `row+1, row+2, ..` in order; none is `''`; there are at most `rows - row - 1`; the scan stops only at the last row or at an empty cell; a missing cell is collected |
| `Standings.GetRank` | src/lib/ludus.ts:44-50 | no header gives `[]`; otherwise the result is the extraction under the first header cell |
| `Standings.HeaderWithoutStandings` | src/lib/ludus.ts:44-50 | a header in the last row also gives `[]`, so `[]` does not mean the header is absent |
| `Standings.ParseRound` | src/lib/ludus.ts:54 | unary `+` gives a number exactly for a present digit string, and `+''` is 0 |
| `Standings.ParseRoundShow` | src/lib/ludus.ts:54 | unary `+` reads back the decimal spelling of every round number |
| `Standings.ExtractMeta` | src/lib/ludus.ts:52-55 | no rank is set, and a numeric round implies a league |
| `Standings.ExtractMetaRoundTrip` | src/lib/ludus.ts:52-55 | `sex_x_league_y_<n>` reads back as that sex, that league and round `n` |
| `Standings.NewRound` | src/lib/ludus.ts:10-13 | a new round has no rank and fewer standings than the sheet has rows |
| `Season.MaxLen` | src/lib/ludus.ts:60 | the `reduce` gives the longest row length, or 0 for no rows |
| `Season.Transpose` | src/lib/ludus.ts:58-68 | the result has `maxRowLen` rows of `matrix.length` cells, with `result[j][i] == matrix[i][j]` where that exists and `''` otherwise |
| `Season.CopyRow` | src/lib/ludus.ts:63-65 | the inner loop copies row `i` into column `i` and touches nothing else |
| `Season.TransposeRectangular` | src/lib/ludus.ts:58-68 | an `n`-by-`k` grid becomes `k`-by-`n`, and transposing twice restores it when `k > 0` |
| `Season.Greater` | src/lib/ludus.ts:74 | `>` on round numbers is false whenever either side is NaN, and is the usual order otherwise |
| `Season.Close` | src/lib/ludus.ts:74-83 | closing throws exactly on an undefined league or a "b" league with no earlier table; otherwise it appends one pair, keeps the earlier pairs, ranks the closed meta and changes nothing else in it, empties the group, and grows the running rank by the new table's height |
| `Season.Step` | src/lib/ludus.ts:74-88 | only a drop in round number can throw; without a drop the pairs are kept and the standings join the group; a drop that does not throw adds one pair and starts a new group; the round's meta becomes `prevMeta`; a change of sex resets the rank to 1 |
| `Season.Process` | src/lib/ludus.ts:73-89 | after `n` rounds there are at most `n` pairs and `n` grouped standings; after at least one round, `prevMeta` is the last round's meta and the group is non-empty |
| `Season.SegmentStart` | src/lib/ludus.ts:74-80 | the open segment starts at the last strict drop, or at 0, and contains no drop |
| `Season.LastReset` | src/lib/ludus.ts:84-86 | the last change of sex before a position, with none after it |
| `Season.RankStep` | src/lib/ludus.ts:81-86 | the running rank resets to 1 on a change of sex, and otherwise grows by the height of the table the round closes |
| `Season.ClosedLast` | src/lib/ludus.ts:77 | a previous table exists exactly when an earlier drop exists, and its height is that segment's longest standings |
| `Season.BreakStep` | src/lib/ludus.ts:74-83 | a closing iteration fails exactly when the close throws, and otherwise records the rank (less the previous table's height for a "b" league) and the transposed segment |
| `Season.RunStep` | src/lib/ludus.ts:84-88 | an iteration with no drop extends the open segment and keeps the closed pairs |
| `Season.ProcessInvariant` | src/lib/ludus.ts:69-89 | after `n` rounds the loop has thrown exactly when some close among them throws; otherwise its variables match the positional description |
| `Season.TransposeToRows` | src/lib/ludus.ts:57-92 | throws exactly when some close throws; otherwise returns each closed segment's pair, then the open segment flushed |
| `Season.SegmentCount` | src/lib/ludus.ts:73-91 | the output has one more pair than there are strict drops between adjacent rounds |
| `Season.EmptySeason` | src/lib/ludus.ts:69-91 | no rounds give one pair with the initial meta and an empty table |
| `Season.FinalSegment` | src/lib/ludus.ts:90 | the last pair carries the last round's meta as given, never ranked by the loop, and the open segment's transposed standings |
| `Season.FirstSegmentRank` | src/lib/ludus.ts:72-77 | the first segment to close is ranked 1 |
| `Season.NamedRoundsHaveLeagues` | src/lib/ludus.ts:74-76 | with metadata read from names, a segment never closes on an undefined league |
| `Season.FirstBLeagueThrows` | src/lib/ludus.ts:76-77 | a "b" league closing the first segment throws |
| `Season.NameExample` | src/lib/ludus.ts:52-55 | `M_liga_1_krog_1` and `M_liga_1_krog_2` read as sex `M`, league `1`, rounds 1 and 2 |
| `Season.SeasonExample` | src/lib/ludus.ts:73-91 | `M_liga_1_krog_1`, `M_liga_1_krog_2`, `M_liga_1_krog_1` give two segments; the first holds two rounds and has rank 1 |

## Left out

- `loadFromLocalStorage`, `saveToLocalStorage`, `loadFromServer` and `loadFromSource` are not modelled. They are browser storage, network fetches, `Promise.all`, logging and JSON.
- The default `sort()` of `[name, text]` pairs in those loaders is I/O-side ordering and is not modelled.
- `Round.games` and the `Game` type are not modelled. The source never fills them.
- `toLowerCase` is modelled as ASCII case folding. Non-ASCII letters keep their case.
- String order compares characters by code point. JavaScript compares UTF-16 code units. The two differ only when characters outside the Basic Multilingual Plane meet characters from U+E000 to U+FFFF.
- The memo and its `i * 1000 + j` key are not modelled. `distance` is the plain recursion, and `ComputeDistance` evaluates it by a table. The key is unique while `j < 1000`. `j` ranges over the positions of the second string, so keys collide only when that string has more than 1000 characters. Then the memoised result can differ. That case is not modelled.
- EditDistance.Dist: a string here is a sequence of code points. In the source, `a.length` and `a[i]` count UTF-16 code units, so a character outside the Basic Multilingual Plane counts 2 there and 1 here. For keys holding such characters the model's distance can be smaller. A fuzzy match within the threshold of 3 can then be accepted here and rejected by the source. The same holds for `EditDistance.Distance`, `Classification.Fuzzy` and `Classification.FuzzyFind`.
- The triangle inequality for `distance` is not proved.
- Unary `+` on a round token is modelled only for decimal digit strings, including `""`, which gives 0. Every other token, such as `" 3"`, `"3.5"` or `"0x1f"`, is treated as NaN.
- `transposeToRows` writes `rank` into the input round's own meta object. The model returns a copy and leaves the input unchanged. The effect of that mutation on a later call over the same rounds is not modelled.
- Season.TransposeToRows: states only whether the call throws, not which of the two errors a failing call raises first.
- The classifier's module-level singleton and `bind` are replaced by explicit state passed in and out.
