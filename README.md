# Wire-cutting game generator, modelled in Dafny

The program generates puzzles for a bomb-defusal style game. A game is a row
of eight wires. Each wire is red, green, blue or yellow, and every colour
occurs at least once. The player wins once no red wire is left. A wire may be
cut only when one of eleven fixed rules allows it, and no cut may follow
victory. For every game, the program searches for the shortest winning cut
sequence. It accepts the game when that sequence has at least six cuts. It
calls the game *too easy* when a shorter one exists, and *impossible* when no
sequence of up to seven cuts wins. It then prints running statistics.

The model has four modules:

- `Rules` (`rules.dfy`, from `rules.py`): the colours and the victory
  condition. It has the four helpers the rules are built from: `Num`,
  `NumColor`, `First` and `Prev`. `First` and `Prev` follow Python slicing,
  so an index past the end gives an empty slice or the whole list. It has the
  eleven rules as named predicates, `RedBetweenGreenAndBlue` (rule 1) to
  `BetweenGreens` (rule 11). The `Rule` datatype and `Allows` dispatch to
  those predicates. `Actions()` is the ordered rule list and `Permitted` is
  the "some rule allows it" fold over that list. A cut wire is `None`.
- `Enumerate` (`enumerate.dfy`): the two library enumerations that the
  search uses, as finite lists in the order the library emits them. These
  are the cartesian power (`itertools.product`) and the ordered selections
  of distinct elements (`itertools.permutations`).
- `Solver` (`solver.dfy`, from `main.py`): `CheckSolution` works on an array
  copy of the game, as `is_solution` does on its list copy. It is proved
  equal to the recursive `IsSolution`. `Solve` is the nested search over cut
  counts and candidates. `GenerateGames` is the all-colours filter over the
  cartesian power.
- `Stats` (`stats.dfy`, from `main.py`): the accepted and too-easy counters
  of `list_games` and the arithmetic of `print_stats`.

## Model

| member | source | states |
|---|---|---|
| `Rules.WireColorsComplete` | rules.py:3-6 | The colour list holds exactly the four colours, each once. |
| `Rules.VictoryIffNoRed` | rules.py:8-10 | Victory holds exactly when the count of red wires is zero, so cut positions never block victory. |
| `Rules.NumColorIsMultiplicity` | rules.py:85-86 | The count of a colour equals that colour's multiplicity in the multiset of wires. |
| `Rules.NumIsLengthMinusCut` | rules.py:82-83 | The present count equals the length minus the number of cut positions. |
| `Rules.NumIsSumOfColors` | rules.py:82-86 | The present count is the sum of the four colour counts, so it bounds each colour count and is bounded by the length. |
| `Rules.FirstNone` | rules.py:88-92 | `First(w, i)` is `None` exactly when every wire at or after `i` is cut, which includes any `i` at or past the end. |
| `Rules.FirstAt` | rules.py:88-92 | Otherwise `First(w, i)` is the wire at the least present position at or after `i`. |
| `Rules.PrevNone` | rules.py:94-98 | `Prev(w, i)` is `None` exactly when every wire before `i` is cut. |
| `Rules.PrevAt` | rules.py:94-98 | Otherwise `Prev(w, i)` is the wire at the greatest present position before `i`. |
| `Rules.ActionsComplete` | rules.py:12-80 | The rule list has exactly eleven entries and holds every rule once. |
| `Rules.PermittedIff` | rules.py:12-80 | A cut is permitted exactly when some rule allows it. |
| `Rules.RuleDemandsColor` | rules.py:17-79 | Rules 1 to 10 each demand one fixed colour at the cut position, so none fires on a cut position. Rule 11 fires only on a blue, a yellow or a cut position. |
| `Rules.RedOnlyByFirstTwoRules` | rules.py:17-26 | A red wire may be cut exactly when rule 1 or rule 2 allows it. |
| `Rules.CutPositionOnlyByBetweenGreens` | rules.py:75-79 | On an already cut position, the rules permit a cut exactly when rule 11 does. |
| `Rules.BetweenGreensFiresOnCutPosition` | rules.py:75-79 | Rule 11 does allow a cut position that lies between two green wires. |
| `Rules.BlueCutWithFourPresent` | rules.py:46-48 | When exactly four wires are present, any present blue wire may be cut. |
| `Rules.RedAfterTwoNeverWithCutNeighbour` | rules.py:21-26 | Rule 2 checks the first present wire from two positions after the cut. So whenever the position right after the cut is already cut, it sees the same red wire twice and refuses. |
| `Rules.RedAfterTwoIntendedAgrees` | rules.py:21-26 | Rule 2 read as its description says, with the first and second *present* wires after the cut, agrees with the code whenever the position right after the cut is present or does not exist. |
| `Rules.RedAfterTwoIntendedPastCutNeighbour` | rules.py:21-26 | On `G G R _ R B` at position 2 the described rule fires, because the first present wire after is red and the second is blue, but the code refuses. |
| `Enumerate.ProductMember` | main.py:22 | The cartesian power holds exactly the sequences of the given length over the items. |
| `Enumerate.ProductDistinct` | main.py:22 | Over distinct items, the cartesian power lists each sequence once. |
| `Enumerate.PermutationsMember` | main.py:34 | The selections from a pool without repeats are exactly the sequences of `k` distinct pool elements. |
| `Enumerate.PermutationsSorted` | main.py:34 | Over an increasing pool, the selections come in strictly increasing lexicographic order. |
| `Solver.CheckSolution` | main.py:43-57 | Checking a cut sequence on an array copy of the game returns exactly `IsSolution(game, cuts)`. The game itself is a value and is not changed. |
| `Solver.WinsIff` | main.py:46-57 | A sequence wins exactly when, before each cut, the game is not yet won and some rule permits that cut, and the game is won after the last cut. |
| `Solver.EmptyCutsIffNoRed` | main.py:46-57 | The empty sequence solves a game exactly when the game is already won, that is, when it has no red wire. |
| `Solver.SolutionCutsEveryRed` | main.py:46-57 | A winning sequence cuts every red wire of the game. |
| `Solver.DistinctCutsHitPresentWires` | main.py:34 | With distinct cuts, each cut falls on a wire that is still present. So rule 11's acceptance of cut positions never matters to the search. |
| `Solver.CandidatesExactly` | main.py:34 | The candidates tried at one length are exactly the distinct cut sequences over the eight positions, in increasing lexicographic order. |
| `Solver.Solve` | main.py:32-41 | A returned sequence has between MIN_CUTS and MAX_CUTS cuts. Its positions are distinct and in range, and it solves the game. Its length is the least length of any solution, and no lexicographically earlier sequence of that length solves the game. The result is "too easy" exactly when the least solvable length is below MIN_CUTS. It is "not possible" exactly when no length up to MAX_CUTS has a solution. |
| `Solver.GeneratedGamesExactly` | main.py:20-30 | Over distinct colours, the generated games are exactly the eight-wire games whose set of colours equals the given set. Each is listed once, and the count returned is the length of the list. |
| `Solver.UsesAllWireColors` | main.py:25 | With the four wire colours, the set test keeps a game exactly when every colour occurs in it. |
| `Solver.GeneratedGameNeedsCuts` | main.py:20-25 | A game in which every colour occurs is not solved by the empty sequence and has no solution of length zero. |
| `Solver.GeneratedGamesNeedCuts` | main.py:20-25 | Every game the generator keeps over the four wire colours is not solved by the empty sequence and has no solution of length zero. |
| `Stats.CountsPartition` | main.py:102-107 | Every outcome is accepted, too easy or impossible, so the three counts add up to the number of outcomes. |
| `Stats.Tally` | main.py:96-107 | The running counters equal the number of accepted outcomes and the number of too-easy outcomes, and together they never exceed the number of outcomes. |
| `Stats.FinalReportExact` | main.py:78-83 | In the final report, games minus accepted minus too easy is exactly the number of impossible games. |
| `Stats.ProgressReportOneShort` | main.py:110-116 | A progress report's impossible figure is always one less than the number of impossible games seen so far. |
| `Stats.ProgressReportAfterFirstOutcome` | main.py:110-116 | A first report after a single too-easy game speaks for zero games and shows -1 impossible games. |
| `Stats.CorrectedProgressReportExact` | main.py:110-116 | Counting the outcomes actually tallied, a progress report speaks for at least one game. Its impossible figure is exactly the number of impossible games seen. |

## Findings

| source | as written | input that shows it | evidently intended | confidence | as-written member | corrected member |
|---|---|---|---|---|---|---|
| main.py:102-116 | The progress report calls `print_stats(i, accepted, too_easy)`. Here `i` is the 0-based index of the latest outcome, but the counters already include that outcome. | A report right after the first outcome, which is too easy: it reports 0 games, so `print_stat` divides by zero, and it reports -1 impossible games. In general the impossible figure is one too small. | Pass `i + 1`, the number of outcomes counted. | not executed; the arithmetic is exact, and when the first report comes is down to timing | `Stats.ProgressReportAfterFirstOutcome` | `Stats.CorrectedProgressReportExact` |
| rules.py:21-26 | Rule 2 tests `_first(wires, cut+1) == red` and `_first(wires, cut+2) != red`. Its comment asks for the first wire after the cut to be red and the second not, and the helpers count only present wires. When position `cut+1` is already cut, both calls find the same red wire, so the rule can never fire. | Wires `G G R _ R B`, cutting position 2: two wires before, the first present wire after is red and the second is blue, yet the rule refuses. | Take the second present wire after the cut, whatever position it is at. | not executed; the intent is read from the rule's own description | `Rules.RedAfterTwoNeverWithCutNeighbour` | `Rules.RedAfterTwoIntendedPastCutNeighbour` |

## Where the code decides

- `print_stat` divides by the game count without a zero guard (main.py:85-87). The model adds no guard. Percentages are left out, see below.
- `NUM_WIRES`, `MIN_CUTS` and `MAX_CUTS` are fixed constants in the code (main.py:11-13). The model uses them as constants.
- Nothing checks the game before the search. `Solve` requires an eight-wire game, which is what `generate_games` produces.
- Rule 11 accepts a position that is already cut (rules.py:77). It is modelled literally, and `Solver.DistinctCutsHitPresentWires` shows that the search never asks about one.
- `Permitted`, and so the search, keeps rule 2 as written (rules.py:23-26). The described reading, `RedAfterTwoBeforeRedIntended`, is modelled beside it, and the two differ only when the position after the cut is already cut. Switching the search to it would change which games are accepted.
- Only lengths `0..MAX_CUTS` are searched (main.py:33), not lengths up to the number of wires.

## Left out

- Parallel dispatch is left out, because it concerns concurrency and interruption, not the result for a game. This covers the process pool, `imap_unordered`, the `KeyboardInterrupt` handling in `solve_interruptable` and `pool.terminate` (main.py:59-63, 101, 123-130).
- Console output and timing are left out: `print_game`, `print_wires`, `rate`, the wall clock, the float percentages of `print_stat`, and when a progress report is due (main.py:65-121). A progress report is modelled only by the figures it prints (`Stats.ProgressReport`).
- `random.shuffle` in `generate_games` (main.py:28) is left out. `GenerateGames` keeps the cartesian-power order, and none of its properties depends on order.
- The concrete size of the enumeration (4^8 games before filtering) is not computed. The filter is characterised game by game.
- The library generators are lazy. `Product` and `Permutations` build the same elements, in the same order, as lists.
- `solve` returns the pair `(game, result)`. `Solve` returns only the result, since the game is its input unchanged.
- A cut position outside the wire list would make Python raise `IndexError`. The rule predicates and `IsSolution` require positions in range instead, and the search only produces such positions.
- `Tally` treats a cut tuple as "not a NonSolution" (main.py:103), as intended. On Python 3.8 to 3.11, that membership test on an enum class raises `TypeError` for a tuple. This behaviour depends on the Python version and is not modelled.
