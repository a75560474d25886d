# Leakage-free match features, modelled in Dafny

This project models the feature-derivation core of `src/preprocessing.py` from a
tennis match-prediction repository. The core makes one chronological pass over a
table of matches. Before each match, it attaches what was known from earlier
matches only:

- the head-to-head counters of the two players (`h2h_A_wins`, `h2h_B_wins`);
- each player's win rate on the match's surface (`A_Surface_winrate`,
  `B_Surface_winrate`), computed as `wins / (matches + 1e-5)`.

Around that pass sit a few column-wise pieces:

- the null filter of `clean_nulls`;
- the surface code table of `encode_Surface`;
- the rank difference `Rank_1 - Rank_2`;
- the label `target`, which is 1 when `Winner` is `Player_1`.

Modules:

- `Records` (`records.dfy`): the loaded row with optional fields, the cleaned
  `Match`, and `CleanNulls`.
- `Columns` (`columns.dfy`): `EncodeSurface`, `RankDiff`, `Target`.
- `HeadToHead` (`head_to_head.dfy`): the sorted-pair key, the counters, the
  specification fold `Fold`/`Features`, the class `Tracker` for the `h2h`
  dictionary, and the loop method `AddH2H`.
- `SurfaceWinrate` (`surface_winrate.dfy`): the same for the `(player, surface)`
  dictionary. The rate is an exact `real` with `Eps = 0.00001`.
- `Pipeline` (`pipeline.dfy`): the output row, its specification `Assemble`, and
  the method `Preprocess`.

Each tracker is a class over a `map`, mutated by a `Step` method that mirrors one
loop iteration: seed the missing entries with zeros, read, then update. The loop
methods `AddH2H` and `AddSurfaceWinrate` are proved against `Features`. Row `i`
of `Features` is read from the fold of the rows strictly before `i`. This is the
read-before-write discipline of the source, and the lemmas about `Features`
(conservation, bounds, cold start, no leakage) carry over to what the loops emit.

The head-to-head semantics are those of the code, not an identity-keyed
redesign:

- The key is the sorted pair of names.
- Counter `A` counts the pair's rows won by whoever stood in the row's
  `Player_1` slot. Counter `B` counts every other row of the pair, including
  rows whose winner is neither player.
- `HeadToHead.SlotNotIdentity` shows one player's wins landing in both `A` and
  `B`.

On the surface tracker, a row that names the same player twice counts two
matches and one win for that player, as the code does.

The model follows the code where a cleaner design would differ:

- head-to-head counts are kept by slot, not by player;
- incomplete rows are dropped silently, with no error;
- the rows are taken in the order given, with no re-sorting;
- an unknown surface gets no code (NaN), not a sentinel.

## Model

| member | source | states |
|---|---|---|
| `Records.CleanNulls` | src/preprocessing.py:13 | the filter never lengthens the table |
| `Records.CleanNullsAppend` | src/preprocessing.py:13 | filtering a concatenation is the concatenation of the filtered parts, so kept rows stay in their original order |
| `Records.CleanNullsLength` | src/preprocessing.py:13 | the output has exactly as many rows as the input has complete rows |
| `Records.CleanNullsSound` | src/preprocessing.py:13 | every kept row is a complete input row |
| `Records.CleanNullsKeepsComplete` | src/preprocessing.py:13 | every row with `Winner`, `Surface`, `Rank_1`, `Rank_2` all present is kept |
| `Records.CleanNullsAllComplete` | src/preprocessing.py:13 | on a table without missing values the filter keeps every row, in place |
| `Columns.EncodeSurface` | src/preprocessing.py:22-23 | a name has a code iff it is one of Hard, Clay, Grass, Carpet, Unknown; the code lies in -1..3 and indexes back to the name |
| `Columns.SurfaceName` | src/preprocessing.py:22 | exactly the codes -1..3 have a name |
| `Columns.SurfaceNameOfEncode` | src/preprocessing.py:22 | decoding the code of a known name gives the name back |
| `Columns.EncodeOfSurfaceName` | src/preprocessing.py:22 | encoding the name of a code in -1..3 gives the code back |
| `Columns.EncodeSurfaceInjective` | src/preprocessing.py:22 | two names with the same code are the same name |
| `Columns.RankDiff` | src/preprocessing.py:30-31 | the difference is negative iff `Player_1` is the better ranked, and zero iff the ranks are equal |
| `Columns.RankDiffSwap` | src/preprocessing.py:31 | swapping the player slots negates the rank difference |
| `Columns.Target` | src/preprocessing.py:94-95 | the label is 0 or 1, and 1 iff `Winner == Player_1` |
| `Columns.TargetSwap` | src/preprocessing.py:95 | with two distinct players and the winner among them, swapping the slots flips the label; a winner who is neither player gives 0 in both orders |
| `HeadToHead.LexLe` | src/preprocessing.py:41 | the order of `sorted` on names, compared character by character; a prefix of a name sorts before it |
| `HeadToHead.LexLeTotal` | src/preprocessing.py:41 | any two names are ordered one way or the other |
| `HeadToHead.LexLeAntisymmetric` | src/preprocessing.py:41 | names ordered both ways are equal |
| `HeadToHead.SortedPair` | src/preprocessing.py:41 | the key holds the two names, smaller first |
| `HeadToHead.SortedPairSymmetric` | src/preprocessing.py:41 | the key does not depend on the order of the two names |
| `HeadToHead.PairOf` | src/preprocessing.py:41 | a row's key is its two players in one order or the other |
| `HeadToHead.Lookup` | src/preprocessing.py:42-43 | a pair already in the dictionary reads its counters; a missing pair reads (0, 0), the value the loop seeds it with |
| `HeadToHead.Record` | src/preprocessing.py:42-53 | after a row the table's keys are the old keys plus the row's pair |
| `HeadToHead.Fold` | src/preprocessing.py:40-53 | the dictionary after a prefix of the rows has an entry for the pair of every row in it |
| `HeadToHead.Features` | src/preprocessing.py:45-47 | the two columns have one entry per row |
| `HeadToHead.FeaturesStep` | src/preprocessing.py:45-53 | one more row adds one more entry, its pair's counters read from the dictionary of the rows before it |
| `HeadToHead.Tracker.constructor` | src/preprocessing.py:39 | the dictionary starts empty |
| `HeadToHead.Tracker.Step` | src/preprocessing.py:41-53 | one iteration returns the pair's counters before the row, and leaves the table updated by the row's outcome |
| `HeadToHead.AddH2H` | src/preprocessing.py:34-54 | the loop emits, for each row, its pair's counters after exactly the strictly earlier rows |
| `HeadToHead.FoldCounts` | src/preprocessing.py:42-53 | after any prefix, `A` is the number of the pair's rows won from the `Player_1` slot and `A + B` is the number of the pair's rows |
| `HeadToHead.FeaturesConservation` | src/preprocessing.py:45-53 | the counters emitted for a row add up to the number of earlier meetings of its two players |
| `HeadToHead.FeaturesColdStart` | src/preprocessing.py:42-47 | a pair's first meeting emits (0, 0) |
| `HeadToHead.RecordEffect` | src/preprocessing.py:41-53 | a row adds one to `A` if `Player_1` won, else one to `B`, on its own pair only; every other pair is unchanged |
| `HeadToHead.SameEntryEitherOrder` | src/preprocessing.py:41 | rows (X, Y) and (Y, X) read and update the same entry |
| `HeadToHead.FeaturesNoLeakage` | src/preprocessing.py:45-53 | a row's counters depend only on earlier rows and its own pair, not on its outcome or later rows |
| `HeadToHead.FeaturesPrefix` | src/preprocessing.py:40-53 | truncating the table after row k leaves rows before k unchanged |
| `HeadToHead.RecordCommutes` | src/preprocessing.py:41-53 | any two rows update the dictionary the same in either order, whether or not they share a pair |
| `HeadToHead.FeaturesSwapDisjoint` | src/preprocessing.py:40-53 | exchanging two adjacent rows of different pairs moves their counters with them and leaves every later row's counters unchanged |
| `HeadToHead.SwappedPairFold` | src/preprocessing.py:41-53 | after both exchanged rows, both orders leave the same dictionary |
| `HeadToHead.FoldAgree` | src/preprocessing.py:40-53 | two row sequences that reach the same dictionary after k rows and agree from there on reach the same dictionary after every later row |
| `HeadToHead.SwappedFold` | src/preprocessing.py:40-53 | after an exchange of two adjacent rows, the dictionary is the same after every later row |
| `HeadToHead.SlotNotIdentity` | src/preprocessing.py:50-53 | a player who wins twice, once from each slot, leaves the pair at (1, 1) |
| `SurfaceWinrate.Rate` | src/preprocessing.py:70-71 | `wins / (matches + 1e-5)` is 0 exactly when there are no wins, the denominator never being 0 |
| `SurfaceWinrate.Get` | src/preprocessing.py:66-67 | a key already in the dictionary reads its tally; a missing key reads (0, 0), the value the loop seeds it with |
| `SurfaceWinrate.Credited` | src/preprocessing.py:76-79 | the win goes to `Player_1` or `Player_2` |
| `SurfaceWinrate.Record` | src/preprocessing.py:65-79 | after a row the table's keys are the old keys plus both players on the row's surface |
| `SurfaceWinrate.Fold` | src/preprocessing.py:62-79 | the dictionary after a prefix of the rows has an entry for both players of every row in it, on that row's surface |
| `SurfaceWinrate.RatesOf` | src/preprocessing.py:70-71 | a player without an entry on the surface reads 0, and a row naming one player twice reads the same rate in both columns |
| `SurfaceWinrate.Features` | src/preprocessing.py:69-71 | the two columns have one entry per row |
| `SurfaceWinrate.FeaturesStep` | src/preprocessing.py:69-79 | one more row adds one more entry, the rates read from the dictionary of the rows before it |
| `SurfaceWinrate.Tracker.constructor` | src/preprocessing.py:61 | the dictionary starts empty and consistent |
| `SurfaceWinrate.Tracker.Step` | src/preprocessing.py:63-79 | one iteration returns both rates from the counters before the row, updates the table by the row, and keeps `wins <= matches` |
| `SurfaceWinrate.SeededRecord` | src/preprocessing.py:65-67 | seeding missing entries with (0, 0) changes neither the rates read nor the update |
| `SurfaceWinrate.AddSurfaceWinrate` | src/preprocessing.py:56-81 | the loop emits, for each row, both players' rates after exactly the strictly earlier rows |
| `SurfaceWinrate.RecordAt` | src/preprocessing.py:74-79 | a row adds to any key exactly its appearances as a match count and its credit as a win count |
| `SurfaceWinrate.RecordConsistent` | src/preprocessing.py:74-79 | a row preserves `wins <= matches` for every key |
| `SurfaceWinrate.FoldCounts` | src/preprocessing.py:65-79 | after any prefix, a key's `matches` counts the player's slots on that surface and `wins` the wins credited to them there |
| `SurfaceWinrate.FoldConsistent` | src/preprocessing.py:66-67 | throughout the pass every key has `wins <= matches` |
| `SurfaceWinrate.FoldMonotone` | src/preprocessing.py:74-79 | both counters of every key only grow as the pass advances |
| `SurfaceWinrate.RateBounds` | src/preprocessing.py:70-71 | a tally with `wins <= matches` has a rate in [0, 1) |
| `SurfaceWinrate.FeaturesBounds` | src/preprocessing.py:69-71 | every emitted rate lies in [0, 1) |
| `SurfaceWinrate.FeaturesColdStart` | src/preprocessing.py:66-70 | `Player_1`'s first row on a surface, in either slot, emits `A_Surface_winrate` of exactly 0 |
| `SurfaceWinrate.FeaturesColdStartSecond` | src/preprocessing.py:66-71 | `Player_2`'s first row on a surface, in either slot, emits `B_Surface_winrate` of exactly 0 |
| `SurfaceWinrate.RecordDistinctPlayers` | src/preprocessing.py:74-79 | with distinct players, each gets one match; `Player_1` gets one win iff they are the `Winner`, `Player_2` gets one win otherwise; other entries are unchanged |
| `SurfaceWinrate.RecordSamePlayer` | src/preprocessing.py:74-79 | a row naming one player twice gives that player two matches and one win |
| `SurfaceWinrate.FeaturesNoLeakage` | src/preprocessing.py:69-79 | a row's rates depend only on earlier rows and its own players and surface |
| `SurfaceWinrate.FeaturesPrefix` | src/preprocessing.py:62-79 | truncating the table after row k leaves the rates of rows before k unchanged |
| `SurfaceWinrate.RecordCommutes` | src/preprocessing.py:65-79 | any two rows update the dictionary the same in either order |
| `SurfaceWinrate.RatesOfSeparate` | src/preprocessing.py:69-79 | a row on another surface, or with no player in common, leaves the rates another row reads unchanged |
| `SurfaceWinrate.FeaturesSwapDisjoint` | src/preprocessing.py:62-79 | exchanging two adjacent rows that share no (player, surface) entry moves their rates with them and leaves every later row's rates unchanged |
| `SurfaceWinrate.SwappedPairFold` | src/preprocessing.py:65-79 | after both exchanged rows, both orders leave the same dictionary |
| `SurfaceWinrate.FoldAgree` | src/preprocessing.py:62-79 | two row sequences that reach the same dictionary after k rows and agree from there on reach the same dictionary after every later row |
| `SurfaceWinrate.SwappedFold` | src/preprocessing.py:62-79 | after an exchange of two adjacent rows, the dictionary is the same after every later row |
| `Pipeline.Assemble` | src/preprocessing.py:86-96 | the output table has one row per cleaned match |
| `Pipeline.Preprocess` | src/preprocessing.py:86-96 | the steps in the source's order produce the specified table, one row per complete input row |
| `Pipeline.AssembleRow` | src/preprocessing.py:92-95 | each output row has a 0/1 label that is 1 iff `Player_1` won, rates in [0, 1), and head-to-head counters summing to the earlier meetings |
| `Pipeline.AssemblePrefix` | src/preprocessing.py:86-96 | truncating the matches after row k leaves the first k output rows unchanged |
| `Pipeline.AssembleSwapDisjoint` | src/preprocessing.py:86-96 | exchanging two adjacent matches with no player in common exchanges their output rows and leaves every later output row unchanged |
| `Pipeline.AssembleNoLeakage` | src/preprocessing.py:88-95 | all derived columns except the label are the same whatever the row's own outcome and whatever follows it |
| `Pipeline.Scenario` | src/preprocessing.py:86-96 | three matches: Alice leads 1-0 entering the second with rate 1/(1+1e-5), and has rate 1/(2+1e-5) entering the third |

## Left out

- `load_data` (src/preprocessing.py:7-9) reads a CSV file. `Preprocess` takes the loaded rows as a parameter instead of a path.
- src/dataloader.py is not part of this model. It fetches matches over HTTP with an API key from the environment and writes CSV files.
- The pandas mechanics are not modelled: `iterrows`, `df.at` writes, and whole-column assignment. Output columns are sequences built one row at a time.
- The columns seeded before each loop (0 for head-to-head, 0.5 for win rates) are dead writes. Every row is overwritten in the loop, so they are omitted.
- `fillna("Unknown")` on `Surface` (line 14) is a no-op after the `dropna`. A cleaned `Match` always has a surface.
- Floating-point division by `matches + 1e-5` is modelled with exact rationals. IEEE rounding is not captured.
- Ranks are modelled as integers. In the table they are floats, because the columns can hold NaN.
- Player names are assumed present. The null filter does not look at the player columns, so a missing name reaches `add_h2h`. When exactly one of the two names is missing, `sorted` at src/preprocessing.py:41 compares a float NaN with a string and raises `TypeError`, which stops the pipeline. This error path is not modelled.
- `Columns.EncodeSurface`: a surface outside the table gives `None`, standing for the NaN that `.map` produces.
- `Records.CleanNulls`: its own contract only bounds the length. What it keeps is stated by the `CleanNulls*` lemmas.
- The code does not sort rows, snapshot or resume tracker state, configure ε, or key head-to-head counts by player identity. None of these is modelled.
