/** The search: checking one cut sequence against the rules, searching a
    game for its shortest winning cut sequence, and the filter that keeps
    the games worth searching. */
module Solver {
  import opened Rules
  import opened Enumerate

  const NUM_WIRES: nat := 8
  const MIN_CUTS: nat := 6
  const MAX_CUTS: nat := 7

  /** A game: the colour of each wire, in order. */
  type Game = seq<Color>

  /** Why a game is not accepted. */
  datatype NonSolution = TooEasy | NotPossible

  /** What the search reports for one game. */
  datatype Outcome = Solved(cuts: seq<nat>) | Rejected(reason: NonSolution)

  /** The working wire list of a game: every wire present. */
  function Wires(game: Game): seq<Wire>
  {
    seq(|game|, i requires 0 <= i < |game| => Some(game[i]))
  }

  /** Every cut names a position below `n`. */
  predicate InRange(cuts: seq<nat>, n: nat)
  {
    forall i | 0 <= i < |cuts| :: cuts[i] < n
  }

  /** A candidate cut sequence: distinct positions below `n`. */
  predicate IsCutSequence(cuts: seq<nat>, n: nat)
  {
    Distinct(cuts) && InRange(cuts, n)
  }

  /** Whether cutting `cuts` in order, starting from `wires`, wins: no cut
      comes after victory, every cut is permitted when it is made, and the
      game is won at the end. */
  predicate Wins(wires: seq<Wire>, cuts: seq<nat>)
    requires InRange(cuts, |wires|)
    decreases |cuts|
  {
    if |cuts| == 0 then Victory(wires)
    else !Victory(wires) && Permitted(wires, cuts[0]) && Wins(wires[cuts[0] := None], cuts[1..])
  }

  /** Whether `cuts` solves `game`. */
  predicate IsSolution(game: Game, cuts: seq<nat>)
    requires InRange(cuts, |game|)
  {
    Wins(Wires(game), cuts)
  }

  /** `wires` with every position named in `cuts` cut. */
  function After(wires: seq<Wire>, cuts: seq<nat>): seq<Wire>
  {
    seq(|wires|, j requires 0 <= j < |wires| => if j in cuts then None else wires[j])
  }

  /** Step `k` of `cuts` is legal: the game is not yet won after the first
      `k` cuts, and the rules permit the next one. */
  predicate StepAllowed(wires: seq<Wire>, cuts: seq<nat>, k: nat)
    requires InRange(cuts, |wires|) && k < |cuts|
  {
    !Victory(After(wires, cuts[..k])) && Permitted(After(wires, cuts[..k]), cuts[k])
  }

  /** Checks a cut sequence on a working copy of the game. */
  method CheckSolution(game: Game, cuts: seq<nat>) returns (ok: bool)
    requires InRange(cuts, |game|)
    ensures ok == IsSolution(game, cuts)
  {
    var wires := new Wire[|game|](i requires 0 <= i < |game| => Some(game[i]));
    assert wires[..] == Wires(game) && cuts[0..] == cuts;
    for k := 0 to |cuts|
      invariant wires.Length == |game|
      invariant InRange(cuts[k..], wires.Length)
      invariant Wins(wires[..], cuts[k..]) == IsSolution(game, cuts)
    {
      var cut := cuts[k];
      assert cuts[k..][0] == cut && cuts[k..][1..] == cuts[k + 1..];
      if Victory(wires[..]) {
        // no cut is allowed once the game is won
        return false;
      }
      if !Permitted(wires[..], cut) {
        // some rule must allow the cut
        return false;
      }
      wires[cut] := None;
    }
    ok := Victory(wires[..]);
  }

  // ---------------------------------------------------------------------------
  // What a winning cut sequence is

  /** Cutting nothing leaves the wires as they are. */
  lemma AfterNone(wires: seq<Wire>)
    ensures After(wires, []) == wires
  {
  }

  /** Cutting the first position and then the next `k - 1` is cutting the
      first `k`. */
  lemma AfterStep(wires: seq<Wire>, cuts: seq<nat>, k: nat)
    requires InRange(cuts, |wires|) && 1 <= k <= |cuts|
    ensures After(wires[cuts[0] := None], cuts[1..][..k - 1]) == After(wires, cuts[..k])
  {
  }

  /** A cut sequence wins exactly when every step is legal and the game is
      won once all cuts are made. */
  lemma {:induction false} WinsIff(wires: seq<Wire>, cuts: seq<nat>)
    requires InRange(cuts, |wires|)
    ensures Wins(wires, cuts) <==>
              (forall k | 0 <= k < |cuts| :: StepAllowed(wires, cuts, k)) && Victory(After(wires, cuts))
    decreases |cuts|
  {
    AfterNone(wires);
    if |cuts| > 0 {
      var c, rest := cuts[0], cuts[1..];
      var next := wires[c := None];
      WinsIff(next, rest);
      assert cuts[..0] == [];
      forall k | 0 <= k < |rest|
        ensures StepAllowed(wires, cuts, k + 1) == StepAllowed(next, rest, k)
      {
        AfterStep(wires, cuts, k + 1);
      }
      AfterStep(wires, cuts, |cuts|);
      assert rest[..|rest|] == rest && cuts[..|cuts|] == cuts;
      if (forall k | 0 <= k < |rest| :: StepAllowed(next, rest, k)) && StepAllowed(wires, cuts, 0) {
        forall k | 0 <= k < |cuts| ensures StepAllowed(wires, cuts, k) {
          if k > 0 {
            assert StepAllowed(next, rest, k - 1);
          }
        }
      }
    }
  }

  /** After a cut sequence the cut positions are exactly those named in it. */
  lemma AfterAt(wires: seq<Wire>, cuts: seq<nat>, j: nat)
    requires j < |wires|
    ensures After(wires, cuts)[j] == if j in cuts then None else wires[j]
  {
  }

  /** The empty cut sequence solves a game exactly when the game is already
      won, that is, when it has no red wire. */
  lemma EmptyCutsIffNoRed(game: Game)
    ensures IsSolution(game, []) == Victory(Wires(game))
    ensures IsSolution(game, []) <==> Red !in game
  {
    if Red in game {
      var i :| 0 <= i < |game| && game[i] == Red;
      assert Wires(game)[i] == Some(Red);
    }
  }

  /** A winning cut sequence cuts every red wire of the game. */
  lemma SolutionCutsEveryRed(game: Game, cuts: seq<nat>, j: nat)
    requires InRange(cuts, |game|) && IsSolution(game, cuts)
    requires j < |game| && game[j] == Red
    ensures j in cuts
  {
    WinsIff(Wires(game), cuts);
    AfterAt(Wires(game), cuts, j);
  }

  /** With distinct cuts, each cut falls on a wire that is still present,
      so rule 11's tolerance of cut positions never comes into play. */
  lemma DistinctCutsHitPresentWires(game: Game, cuts: seq<nat>, k: nat)
    requires IsCutSequence(cuts, |game|) && k < |cuts|
    ensures After(Wires(game), cuts[..k])[cuts[k]] == Some(game[cuts[k]])
  {
  }

  // ---------------------------------------------------------------------------
  // The search

  /** Some cut sequence of length `k` solves `game`. */
  ghost predicate SolvableWith(game: Game, k: nat)
  {
    exists cuts :: |cuts| == k && IsCutSequence(cuts, |game|) && IsSolution(game, cuts)
  }

  /** `k` is the least length of a cut sequence that solves `game`. */
  ghost predicate LeastSolvable(game: Game, k: nat)
  {
    SolvableWith(game, k) && forall j: nat | j < k :: !SolvableWith(game, j)
  }

  /** No cut sequence of the same length as `cuts` that comes earlier in
      lexicographic order solves `game`. */
  ghost predicate EarliestOfItsLength(game: Game, cuts: seq<nat>)
  {
    forall c | |c| == |cuts| && IsCutSequence(c, |game|) && LexLess(c, cuts) :: !IsSolution(game, c)
  }

  /** The candidates the search tries at one length, in order. */
  function Candidates(numCuts: nat): seq<seq<nat>>
  {
    Permutations(Range(NUM_WIRES), numCuts)
  }

  /** The candidates of one length are exactly the cut sequences of that
      length, in strictly increasing lexicographic order. */
  lemma CandidatesExactly(numCuts: nat)
    ensures forall c :: c in Candidates(numCuts) <==> |c| == numCuts && IsCutSequence(c, NUM_WIRES)
    ensures LexSorted(Candidates(numCuts))
  {
    RangeIncreasing(NUM_WIRES);
    var pool := Range(NUM_WIRES);
    forall c ensures c in Candidates(numCuts) <==> |c| == numCuts && IsCutSequence(c, NUM_WIRES) {
      PermutationsMember(pool, numCuts, c);
    }
    PermutationsSorted(pool, numCuts);
  }

  /** A cut sequence that comes before candidate `i` in lexicographic order
      is an earlier candidate. */
  lemma EarlierCandidate(numCuts: nat, i: nat, c: seq<nat>) returns (j: nat)
    requires i < |Candidates(numCuts)|
    requires |c| == numCuts && IsCutSequence(c, NUM_WIRES) && LexLess(c, Candidates(numCuts)[i])
    ensures j < i && Candidates(numCuts)[j] == c
  {
    CandidatesExactly(numCuts);
    var cs := Candidates(numCuts);
    j :| 0 <= j < |cs| && cs[j] == c;
    if j == i {
      LexLessIrreflexive(c);
    } else if j > i {
      LexLessAsymmetric(c, cs[i]);
    }
  }

  /** Searches lengths 0 to MAX_CUTS in increasing order and, within a
      length, the candidates in lexicographic order; stops at the first
      winning sequence, which is accepted only when it has at least
      MIN_CUTS cuts. */
  method Solve(game: Game) returns (outcome: Outcome)
    requires |game| == NUM_WIRES
    ensures outcome.Solved? ==>
              MIN_CUTS <= |outcome.cuts| <= MAX_CUTS
              && IsCutSequence(outcome.cuts, NUM_WIRES)
              && IsSolution(game, outcome.cuts)
    ensures outcome.Solved? ==>
              LeastSolvable(game, |outcome.cuts|) && EarliestOfItsLength(game, outcome.cuts)
    ensures outcome == Rejected(TooEasy) <==> exists k: nat | k < MIN_CUTS :: LeastSolvable(game, k)
    ensures outcome == Rejected(NotPossible) <==> forall k: nat | k <= MAX_CUTS :: !SolvableWith(game, k)
  {
    var numCuts := 0;
    while numCuts <= MAX_CUTS
      invariant numCuts <= MAX_CUTS + 1
      invariant forall k: nat | k < numCuts :: !SolvableWith(game, k)
    {
      var candidates := Candidates(numCuts);
      CandidatesExactly(numCuts);
      var i := 0;
      while i < |candidates|
        invariant i <= |candidates|
        invariant forall j | 0 <= j < i :: InRange(candidates[j], NUM_WIRES) && !IsSolution(game, candidates[j])
      {
        var cuts := candidates[i];
        assert cuts in candidates;
        var ok := CheckSolution(game, cuts);
        if ok {
          assert SolvableWith(game, numCuts);
          if numCuts >= MIN_CUTS {
            forall c | |c| == |cuts| && IsCutSequence(c, |game|) && LexLess(c, cuts)
              ensures !IsSolution(game, c)
            {
              var j := EarlierCandidate(numCuts, i, c);
            }
            return Solved(cuts);
          } else {
            assert LeastSolvable(game, numCuts);
            return Rejected(TooEasy);
          }
        }
        i := i + 1;
      }
      forall c | |c| == numCuts && IsCutSequence(c, |game|) ensures !IsSolution(game, c) {
        var j :| 0 <= j < |candidates| && candidates[j] == c;
      }
      numCuts := numCuts + 1;
    }
    return Rejected(NotPossible);
  }

  // ---------------------------------------------------------------------------
  // The games worth searching

  /** The colours occurring in `s`. */
  function Elements(s: seq<Color>): set<Color>
  {
    set c | c in s
  }

  /** The games of `games` that use exactly the colours of `colors`, in
      their order. */
  function KeepUsingAll(games: seq<Game>, colors: seq<Color>): seq<Game>
  {
    if |games| == 0 then []
    else (if Elements(colors) == Elements(games[0]) then [games[0]] else [])
         + KeepUsingAll(games[1..], colors)
  }

  /** The games of NUM_WIRES wires over `colors` that use every colour, and
      their number (the order of the list is not modelled). */
  function GenerateGames(colors: seq<Color>): (seq<Game>, nat)
  {
    var games := KeepUsingAll(Product(colors, NUM_WIRES), colors);
    (games, |games|)
  }

  lemma {:induction false} KeepUsingAllMember(games: seq<Game>, colors: seq<Color>, g: Game)
    ensures g in KeepUsingAll(games, colors) <==> g in games && Elements(colors) == Elements(g)
  {
    if |games| > 0 {
      KeepUsingAllMember(games[1..], colors, g);
      assert games == [games[0]] + games[1..];
    }
  }

  lemma {:induction false} KeepUsingAllDistinct(games: seq<Game>, colors: seq<Color>)
    requires Distinct(games)
    ensures Distinct(KeepUsingAll(games, colors))
  {
    if |games| > 0 {
      assert Distinct(games[1..]) by {
        forall i, j | 0 <= i < j < |games[1..]| ensures games[1..][i] != games[1..][j] {
          assert games[1..][i] == games[i + 1] && games[1..][j] == games[j + 1];
        }
      }
      KeepUsingAllDistinct(games[1..], colors);
      var rest := KeepUsingAll(games[1..], colors);
      forall g | g in rest ensures g != games[0] {
        KeepUsingAllMember(games[1..], colors, g);
        var k :| 0 <= k < |games[1..]| && games[1..][k] == g;
        assert games[k + 1] == g;
      }
      if Elements(colors) == Elements(games[0]) {
        DistinctCons(games[0], rest);
      }
    }
  }

  /** Over a list of distinct colours, the generated games are exactly
      the games of NUM_WIRES wires that use precisely those colours, each
      listed once, and the count is the length of the list. */
  lemma GeneratedGamesExactly(colors: seq<Color>, g: Game)
    requires Distinct(colors)
    ensures var (games, count) := GenerateGames(colors);
            count == |games|
            && Distinct(games)
            && (g in games <==> |g| == NUM_WIRES && Elements(g) == Elements(colors))
  {
    ProductMember(colors, NUM_WIRES, g);
    ProductDistinct(colors, NUM_WIRES);
    KeepUsingAllDistinct(Product(colors, NUM_WIRES), colors);
    KeepUsingAllMember(Product(colors, NUM_WIRES), colors, g);
    if Elements(colors) == Elements(g) {
      forall i | 0 <= i < |g| ensures g[i] in colors {
        assert g[i] in Elements(g);
      }
    }
  }

  /** With the four wire colours, a game uses precisely those colours
      exactly when every colour occurs in it. */
  lemma UsesAllWireColors(g: Game)
    ensures Elements(g) == Elements(WireColors()) <==> forall c: Color :: c in g
  {
    WireColorsComplete();
    assert forall c: Color :: c in Elements(WireColors());
    if forall c: Color :: c in g {
      assert Elements(g) == Elements(WireColors());
    }
    if Elements(g) == Elements(WireColors()) {
      forall c: Color ensures c in g {
        assert c in Elements(WireColors());
      }
    }
  }

  /** A game in which every colour occurs has a red wire, so no game the
      search is given is won without cutting. */
  lemma GeneratedGameNeedsCuts(g: Game)
    requires forall c: Color :: c in g
    ensures !IsSolution(g, [])
    ensures !SolvableWith(g, 0)
  {
    EmptyCutsIffNoRed(g);
    assert Red in g;
  }

  /** Every game the generator keeps needs at least one cut. */
  lemma GeneratedGamesNeedCuts(g: Game)
    requires g in GenerateGames(WireColors()).0
    ensures !IsSolution(g, [])
    ensures !SolvableWith(g, 0)
  {
    WireColorsComplete();
    GeneratedGamesExactly(WireColors(), g);
    UsesAllWireColors(g);
    GeneratedGameNeedsCuts(g);
  }
}
