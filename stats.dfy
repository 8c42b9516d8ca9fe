/** The bookkeeping over the stream of search outcomes: the running
    counts of accepted and too-easy games, and the figures a statistics
    report prints from them. */
module Stats {
  import opened Solver

  /** Number of accepted games among `outcomes`. */
  function CountSolved(outcomes: seq<Outcome>): nat
  {
    if |outcomes| == 0 then 0
    else CountSolved(outcomes[..|outcomes| - 1]) + (if outcomes[|outcomes| - 1].Solved? then 1 else 0)
  }

  /** Number of games among `outcomes` rejected for `reason`. */
  function CountRejected(outcomes: seq<Outcome>, reason: NonSolution): nat
  {
    if |outcomes| == 0 then 0
    else CountRejected(outcomes[..|outcomes| - 1], reason)
         + (if outcomes[|outcomes| - 1] == Rejected(reason) then 1 else 0)
  }

  /** Every outcome is accepted, too easy or impossible. */
  lemma {:induction false} CountsPartition(outcomes: seq<Outcome>)
    ensures CountSolved(outcomes) + CountRejected(outcomes, TooEasy)
            + CountRejected(outcomes, NotPossible) == |outcomes|
  {
    if |outcomes| > 0 {
      CountsPartition(outcomes[..|outcomes| - 1]);
      match outcomes[|outcomes| - 1]
      case Solved(_) =>
      case Rejected(reason) => assert reason.TooEasy? || reason.NotPossible?;
    }
  }

  /** The running counts kept while the outcomes arrive. */
  method Tally(outcomes: seq<Outcome>) returns (accepted: nat, tooEasy: nat)
    ensures accepted == CountSolved(outcomes)
    ensures tooEasy == CountRejected(outcomes, TooEasy)
    ensures accepted + tooEasy <= |outcomes|
  {
    accepted, tooEasy := 0, 0;
    for i := 0 to |outcomes|
      invariant accepted == CountSolved(outcomes[..i])
      invariant tooEasy == CountRejected(outcomes[..i], TooEasy)
    {
      assert outcomes[..i + 1][..i] == outcomes[..i];
      match outcomes[i]
      case Rejected(reason) =>
        if reason == TooEasy {
          tooEasy := tooEasy + 1;
        }
      case Solved(_) =>
        accepted := accepted + 1;
    }
    assert outcomes[..|outcomes|] == outcomes;
    CountsPartition(outcomes);
  }

  /** The three figures a statistics report prints: the number of games it
      speaks for and how many of them were accepted or too easy; the rest
      are reported as impossible. */
  datatype Report = Report(games: int, accepted: int, tooEasy: int)
  {
    function Impossible(): int
    {
      games - accepted - tooEasy
    }
  }

  /** The final report, after every outcome has arrived. */
  function FinalReport(outcomes: seq<Outcome>): Report
  {
    Report(|outcomes|, CountSolved(outcomes), CountRejected(outcomes, TooEasy))
  }

  /** The final report's impossible figure is the number of games the
      search found impossible. */
  lemma FinalReportExact(outcomes: seq<Outcome>)
    ensures FinalReport(outcomes).Impossible() == CountRejected(outcomes, NotPossible)
  {
    CountsPartition(outcomes);
  }

  /** The progress report printed once the outcome at index `i` has been
      counted: it passes the index `i` as the number of games, although
      `i + 1` outcomes have been counted. */
  function ProgressReport(outcomes: seq<Outcome>, i: nat): Report
    requires i < |outcomes|
  {
    Report(i, CountSolved(outcomes[..i + 1]), CountRejected(outcomes[..i + 1], TooEasy))
  }

  /** The progress report's impossible figure is always one less than the
      number of impossible games seen so far. */
  lemma ProgressReportOneShort(outcomes: seq<Outcome>, i: nat)
    requires i < |outcomes|
    ensures ProgressReport(outcomes, i).Impossible() == CountRejected(outcomes[..i + 1], NotPossible) - 1
  {
    CountsPartition(outcomes[..i + 1]);
  }

  /** When the first report comes after a single too-easy game, it speaks
      for zero games (its percentages divide by zero) and reports -1
      impossible games. */
  lemma ProgressReportAfterFirstOutcome()
    ensures ProgressReport([Rejected(TooEasy)], 0).games == 0
    ensures ProgressReport([Rejected(TooEasy)], 0).Impossible() == -1
  {
  }

  /** The progress report counting the outcomes actually tallied. */
  function CorrectedProgressReport(outcomes: seq<Outcome>, i: nat): Report
    requires i < |outcomes|
  {
    FinalReport(outcomes[..i + 1])
  }

  /** The corrected progress report speaks for at least one game and its
      impossible figure is the number of impossible games seen so far. */
  lemma CorrectedProgressReportExact(outcomes: seq<Outcome>, i: nat)
    requires i < |outcomes|
    ensures CorrectedProgressReport(outcomes, i).games >= 1
    ensures CorrectedProgressReport(outcomes, i).Impossible() == CountRejected(outcomes[..i + 1], NotPossible)
  {
    FinalReportExact(outcomes[..i + 1]);
  }
}
