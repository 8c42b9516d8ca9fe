/** The fixed rule set of the wire-cutting puzzle: the wire colours, the
    victory condition, the eleven cut rules and the helpers they are built
    from. Everything here is a pure function of the current wires, where a
    wire that has been cut is `None`. */
module Rules {

  /** The four wire colours, in declaration order. */
  datatype Color = Red | Green | Blue | Yellow

  datatype Option<T> = None | Some(value: T)

  /** One wire position: its colour, or `None` once it has been cut. */
  type Wire = Option<Color>

  /** All colours, in declaration order. */
  function WireColors(): seq<Color>
  {
    [Red, Green, Blue, Yellow]
  }

  /** The position of a colour in declaration order. */
  function ColorIndex(c: Color): nat
  {
    match c
    case Red => 0
    case Green => 1
    case Blue => 2
    case Yellow => 3
  }

  /** The game is won when no red wire is left. */
  predicate Victory(wires: seq<Wire>)
  {
    forall i | 0 <= i < |wires| :: wires[i] != Some(Red)
  }

  // ---------------------------------------------------------------------------
  // Helpers over the wire list

  /** Number of wires still present. */
  function Num(wires: seq<Wire>): nat
  {
    if |wires| == 0 then 0
    else (if wires[0] != None then 1 else 0) + Num(wires[1..])
  }

  /** Number of wires of colour `color` still present. */
  function NumColor(wires: seq<Wire>, color: Color): nat
  {
    if |wires| == 0 then 0
    else (if wires[0] == Some(color) then 1 else 0) + NumColor(wires[1..], color)
  }

  /** The first present wire of `s`, or `None` when every wire of `s` is cut. */
  function FirstPresent(s: seq<Wire>): Wire
  {
    if |s| == 0 then None
    else if s[0] != None then s[0]
    else FirstPresent(s[1..])
  }

  /** The last present wire of `s`, or `None` when every wire of `s` is cut. */
  function LastPresent(s: seq<Wire>): Wire
  {
    if |s| == 0 then None
    else if s[|s| - 1] != None then s[|s| - 1]
    else LastPresent(s[..|s| - 1])
  }

  /** The first present wire at or after `index`; a slice that starts past
      the end is empty, so such an index gives `None`. */
  function First(wires: seq<Wire>, index: nat): Wire
  {
    FirstPresent(if index <= |wires| then wires[index..] else [])
  }

  /** The last present wire strictly before `index`; a slice that ends past
      the end is the whole list. */
  function Prev(wires: seq<Wire>, index: nat): Wire
  {
    LastPresent(if index <= |wires| then wires[..index] else wires)
  }

  // ---------------------------------------------------------------------------
  // The eleven rules; each decides whether position `cut` may be cut now.

  /** Rule 1: a red wire whose previous wire is green or absent and whose
      next wire is blue or absent. */
  predicate RedBetweenGreenAndBlue(wires: seq<Wire>, cut: nat)
    requires cut < |wires|
  {
    wires[cut] == Some(Red)
    && (Prev(wires, cut) == None || Prev(wires, cut) == Some(Green))
    && (First(wires, cut + 1) == None || First(wires, cut + 1) == Some(Blue))
  }

  /** Rule 2: a red wire with exactly two wires before it, whose next wire
      is red and where the first present wire from two positions on is not
      red. */
  predicate RedAfterTwoBeforeRed(wires: seq<Wire>, cut: nat)
    requires cut < |wires|
  {
    wires[cut] == Some(Red)
    && Num(wires[..cut]) == 2
    && First(wires, cut + 1) == Some(Red)
    && First(wires, cut + 2) != Some(Red)
  }

  /** Rule 3: a green wire followed by a yellow one, with an odd number of
      green wires. */
  predicate GreenBeforeYellowOddGreens(wires: seq<Wire>, cut: nat)
    requires cut < |wires|
  {
    wires[cut] == Some(Green)
    && First(wires, cut + 1) == Some(Yellow)
    && NumColor(wires, Green) % 2 == 1
  }

  /** Rule 4: a green wire when exactly one yellow and exactly one green
      wire are present. */
  predicate LoneGreenLoneYellow(wires: seq<Wire>, cut: nat)
    requires cut < |wires|
  {
    wires[cut] == Some(Green)
    && NumColor(wires, Green) == 1
    && NumColor(wires, Yellow) == 1
  }

  /** Rule 5: a green wire when the last wire is blue and the number of
      green wires is even. */
  predicate GreenLastBlueEvenGreens(wires: seq<Wire>, cut: nat)
    requires cut < |wires|
  {
    wires[cut] == Some(Green)
    && Prev(wires, |wires|) == Some(Blue)
    && NumColor(wires, Green) % 2 == 0
  }

  /** Rule 6: a blue wire when exactly four wires are present. */
  predicate BlueAmongFour(wires: seq<Wire>, cut: nat)
    requires cut < |wires|
  {
    wires[cut] == Some(Blue) && Num(wires) == 4
  }

  /** Rule 7: a blue wire when there are as many red wires as blue and
      yellow wires together. */
  predicate BlueRedBalance(wires: seq<Wire>, cut: nat)
    requires cut < |wires|
  {
    wires[cut] == Some(Blue)
    && NumColor(wires, Blue) + NumColor(wires, Yellow) == NumColor(wires, Red)
  }

  /** Rule 8: a yellow wire when the first wire is green and the number of
      yellow wires is even. */
  predicate YellowFirstGreenEvenYellows(wires: seq<Wire>, cut: nat)
    requires cut < |wires|
  {
    wires[cut] == Some(Yellow)
    && First(wires, 0) == Some(Green)
    && NumColor(wires, Yellow) % 2 == 0
  }

  /** Rule 9: a yellow wire when the first wire is blue and the number of
      yellow wires is odd. */
  predicate YellowFirstBlueOddYellows(wires: seq<Wire>, cut: nat)
    requires cut < |wires|
  {
    wires[cut] == Some(Yellow)
    && First(wires, 0) == Some(Blue)
    && NumColor(wires, Yellow) % 2 == 1
  }

  /** Rule 10: a yellow wire whose next wire is red and whose previous wire
      is not yellow (an absent previous wire qualifies). */
  predicate YellowBeforeRed(wires: seq<Wire>, cut: nat)
    requires cut < |wires|
  {
    wires[cut] == Some(Yellow)
    && Prev(wires, cut) != Some(Yellow)
    && First(wires, cut + 1) == Some(Red)
  }

  /** Rule 11: a position holding neither red nor green (a cut position
      qualifies too) whose neighbours on both sides are green. */
  predicate BetweenGreens(wires: seq<Wire>, cut: nat)
    requires cut < |wires|
  {
    wires[cut] != Some(Red) && wires[cut] != Some(Green)
    && Prev(wires, cut) == Some(Green)
    && First(wires, cut + 1) == Some(Green)
  }

  /** The rules, by their position in the rule list. */
  datatype Rule =
    | Rule1 | Rule2 | Rule3 | Rule4 | Rule5 | Rule6
    | Rule7 | Rule8 | Rule9 | Rule10 | Rule11

  /** The position of a rule in the rule list. */
  function RuleIndex(r: Rule): nat
  {
    match r
    case Rule1 => 0
    case Rule2 => 1
    case Rule3 => 2
    case Rule4 => 3
    case Rule5 => 4
    case Rule6 => 5
    case Rule7 => 6
    case Rule8 => 7
    case Rule9 => 8
    case Rule10 => 9
    case Rule11 => 10
  }

  /** Whether `rule` allows cutting position `cut`. */
  predicate Allows(rule: Rule, wires: seq<Wire>, cut: nat)
    requires cut < |wires|
  {
    match rule
    case Rule1 => RedBetweenGreenAndBlue(wires, cut)
    case Rule2 => RedAfterTwoBeforeRed(wires, cut)
    case Rule3 => GreenBeforeYellowOddGreens(wires, cut)
    case Rule4 => LoneGreenLoneYellow(wires, cut)
    case Rule5 => GreenLastBlueEvenGreens(wires, cut)
    case Rule6 => BlueAmongFour(wires, cut)
    case Rule7 => BlueRedBalance(wires, cut)
    case Rule8 => YellowFirstGreenEvenYellows(wires, cut)
    case Rule9 => YellowFirstBlueOddYellows(wires, cut)
    case Rule10 => YellowBeforeRed(wires, cut)
    case Rule11 => BetweenGreens(wires, cut)
  }

  /** The rule list, in order. */
  function Actions(): seq<Rule>
  {
    [Rule1, Rule2, Rule3, Rule4, Rule5, Rule6, Rule7, Rule8, Rule9, Rule10, Rule11]
  }

  /** Whether some rule of `rules` allows the cut (the negation of "every
      rule rejects it"). */
  predicate AnyAllows(rules: seq<Rule>, wires: seq<Wire>, cut: nat)
    requires cut < |wires|
  {
    |rules| > 0 && (Allows(rules[0], wires, cut) || AnyAllows(rules[1..], wires, cut))
  }

  /** Whether the rule list allows cutting position `cut`. */
  predicate Permitted(wires: seq<Wire>, cut: nat)
    requires cut < |wires|
  {
    AnyAllows(Actions(), wires, cut)
  }

  /** The colour a rule other than rule 11 demands at the cut position. */
  function DemandedColor(rule: Rule): Color
    requires rule != Rule11
  {
    match rule
    case Rule1 | Rule2 => Red
    case Rule3 | Rule4 | Rule5 => Green
    case Rule6 | Rule7 => Blue
    case Rule8 | Rule9 | Rule10 => Yellow
  }

  // ---------------------------------------------------------------------------
  // Properties of the helpers

  /** The colour list holds each of the four colours exactly once. */
  lemma WireColorsComplete()
    ensures |WireColors()| == 4
    ensures forall c: Color :: c in WireColors()
    ensures forall i, j | 0 <= i < j < |WireColors()| :: WireColors()[i] != WireColors()[j]
  {
    forall c: Color ensures c in WireColors() {
      assert WireColors()[ColorIndex(c)] == c;
    }
  }

  /** Victory is the same as a red count of zero. */
  lemma {:induction false} VictoryIffNoRed(wires: seq<Wire>)
    ensures Victory(wires) <==> NumColor(wires, Red) == 0
  {
    if |wires| > 0 {
      VictoryIffNoRed(wires[1..]);
      assert Victory(wires) <==> wires[0] != Some(Red) && Victory(wires[1..]) by {
        if Victory(wires) {
          forall i | 0 <= i < |wires[1..]| ensures wires[1..][i] != Some(Red) {
            assert wires[1..][i] == wires[i + 1];
          }
        }
        if wires[0] != Some(Red) && Victory(wires[1..]) {
          forall i | 0 <= i < |wires| ensures wires[i] != Some(Red) {
            if i > 0 { assert wires[i] == wires[1..][i - 1]; }
          }
        }
      }
    }
  }

  /** The colour counts are the multiplicities in the multiset of wires. */
  lemma {:induction false} NumColorIsMultiplicity(wires: seq<Wire>, color: Color)
    ensures NumColor(wires, color) == multiset(wires)[Some(color)]
  {
    if |wires| > 0 {
      NumColorIsMultiplicity(wires[1..], color);
      assert wires == [wires[0]] + wires[1..];
    }
  }

  /** The present count is the length minus the number of cut positions. */
  lemma {:induction false} NumIsLengthMinusCut(wires: seq<Wire>)
    ensures Num(wires) == |wires| - multiset(wires)[None]
  {
    if |wires| > 0 {
      NumIsLengthMinusCut(wires[1..]);
      assert wires == [wires[0]] + wires[1..];
    }
  }

  /** The present count is the sum of the four colour counts, hence bounds
      each of them, and is bounded by the length. */
  lemma {:induction false} NumIsSumOfColors(wires: seq<Wire>)
    ensures Num(wires) == NumColor(wires, Red) + NumColor(wires, Green)
                          + NumColor(wires, Blue) + NumColor(wires, Yellow)
    ensures forall c: Color :: NumColor(wires, c) <= Num(wires)
    ensures Num(wires) <= |wires|
  {
    if |wires| > 0 {
      NumIsSumOfColors(wires[1..]);
      match wires[0]
      case None =>
      case Some(c) => assert c.Red? || c.Green? || c.Blue? || c.Yellow?;
    }
  }

  /** `FirstPresent` is `None` exactly when every wire of `s` is cut. */
  lemma {:induction false} FirstPresentNone(s: seq<Wire>)
    ensures FirstPresent(s) == None <==> forall j | 0 <= j < |s| :: s[j] == None
  {
    if |s| > 0 {
      FirstPresentNone(s[1..]);
      if s[0] == None {
        assert forall j | 1 <= j < |s| :: s[j] == s[1..][j - 1];
      }
    }
  }

  /** `FirstPresent` is the wire at the least present position. */
  lemma {:induction false} FirstPresentAt(s: seq<Wire>, j: nat)
    requires j < |s| && s[j] != None
    requires forall k | 0 <= k < j :: s[k] == None
    ensures FirstPresent(s) == s[j]
  {
    if j > 0 {
      FirstPresentAt(s[1..], j - 1);
    }
  }

  /** `LastPresent` is `None` exactly when every wire of `s` is cut. */
  lemma {:induction false} LastPresentNone(s: seq<Wire>)
    ensures LastPresent(s) == None <==> forall j | 0 <= j < |s| :: s[j] == None
  {
    if |s| > 0 {
      LastPresentNone(s[..|s| - 1]);
    }
  }

  /** `LastPresent` is the wire at the greatest present position. */
  lemma {:induction false} LastPresentAt(s: seq<Wire>, j: nat)
    requires j < |s| && s[j] != None
    requires forall k | j < k < |s| :: s[k] == None
    ensures LastPresent(s) == s[j]
  {
    if j < |s| - 1 {
      LastPresentAt(s[..|s| - 1], j);
    }
  }

  /** `First(wires, index)` is `None` exactly when every wire at or after
      `index` is cut, which includes every index at or past the end. */
  lemma FirstNone(wires: seq<Wire>, index: nat)
    ensures First(wires, index) == None <==> forall j | index <= j < |wires| :: wires[j] == None
  {
    if index <= |wires| {
      var s := wires[index..];
      FirstPresentNone(s);
      assert forall j | index <= j < |wires| :: wires[j] == s[j - index];
    }
  }

  /** Otherwise `First(wires, index)` is the wire at the least present
      position at or after `index`. */
  lemma FirstAt(wires: seq<Wire>, index: nat, j: nat)
    requires index <= j < |wires| && wires[j] != None
    requires forall k | index <= k < j :: wires[k] == None
    ensures First(wires, index) == wires[j]
  {
    var s := wires[index..];
    assert forall k | 0 <= k < j - index :: s[k] == wires[index + k];
    FirstPresentAt(s, j - index);
  }

  /** `Prev(wires, index)` is `None` exactly when every wire before
      `index` is cut. */
  lemma PrevNone(wires: seq<Wire>, index: nat)
    ensures Prev(wires, index) == None <==> forall j | 0 <= j < index && j < |wires| :: wires[j] == None
  {
    if index <= |wires| {
      var s := wires[..index];
      LastPresentNone(s);
      assert forall j | 0 <= j < index :: wires[j] == s[j];
    } else {
      LastPresentNone(wires);
    }
  }

  /** Otherwise `Prev(wires, index)` is the wire at the greatest present
      position before `index`. */
  lemma PrevAt(wires: seq<Wire>, index: nat, j: nat)
    requires j < index <= |wires| && wires[j] != None
    requires forall k | j < k < index :: wires[k] == None
    ensures Prev(wires, index) == wires[j]
  {
    var s := wires[..index];
    assert forall k | j < k < index :: s[k] == wires[k];
    LastPresentAt(s, j);
  }

  // ---------------------------------------------------------------------------
  // Properties of the rule set

  /** The rule list holds each of the eleven rules exactly once. */
  lemma ActionsComplete()
    ensures |Actions()| == 11
    ensures forall r: Rule :: r in Actions()
    ensures forall i, j | 0 <= i < j < |Actions()| :: Actions()[i] != Actions()[j]
  {
    forall r: Rule ensures r in Actions() {
      assert Actions()[RuleIndex(r)] == r;
    }
  }

  /** The `any` fold over a rule list holds exactly when one of its rules
      allows the cut. */
  lemma {:induction false} AnyAllowsIff(rules: seq<Rule>, wires: seq<Wire>, cut: nat)
    requires cut < |wires|
    ensures AnyAllows(rules, wires, cut) <==> exists r | r in rules :: Allows(r, wires, cut)
  {
    if |rules| > 0 {
      AnyAllowsIff(rules[1..], wires, cut);
      assert forall r :: r in rules <==> r == rules[0] || r in rules[1..];
    }
  }

  /** A cut is permitted exactly when some rule allows it. */
  lemma PermittedIff(wires: seq<Wire>, cut: nat)
    requires cut < |wires|
    ensures Permitted(wires, cut) <==> exists r: Rule :: Allows(r, wires, cut)
  {
    AnyAllowsIff(Actions(), wires, cut);
    ActionsComplete();
  }

  /** Rules 1 to 10 each demand one colour at the cut position, so none of
      them fires on a cut position; rule 11 fires only on a blue, a yellow
      or a cut position. */
  lemma RuleDemandsColor(rule: Rule, wires: seq<Wire>, cut: nat)
    requires cut < |wires| && Allows(rule, wires, cut)
    ensures rule != Rule11 ==> wires[cut] == Some(DemandedColor(rule))
    ensures rule == Rule11 ==> wires[cut] == None || wires[cut] == Some(Blue) || wires[cut] == Some(Yellow)
  {
    if rule == Rule11 && wires[cut] != None {
      var c := wires[cut].value;
      assert c != Red && c != Green;
      assert c.Blue? || c.Yellow?;
    }
  }

  /** Only rules 1 and 2 can allow cutting a red wire. */
  lemma RedOnlyByFirstTwoRules(wires: seq<Wire>, cut: nat)
    requires cut < |wires| && wires[cut] == Some(Red)
    ensures Permitted(wires, cut) <==>
              RedBetweenGreenAndBlue(wires, cut) || RedAfterTwoBeforeRed(wires, cut)
  {
    PermittedIff(wires, cut);
    if Permitted(wires, cut) {
      var r: Rule :| Allows(r, wires, cut);
      RuleDemandsColor(r, wires, cut);
    } else {
      assert !Allows(Rule1, wires, cut) && !Allows(Rule2, wires, cut);
    }
  }

  /** On a cut position only rule 11 can fire. */
  lemma CutPositionOnlyByBetweenGreens(wires: seq<Wire>, cut: nat)
    requires cut < |wires| && wires[cut] == None
    ensures Permitted(wires, cut) <==> BetweenGreens(wires, cut)
  {
    PermittedIff(wires, cut);
    if Permitted(wires, cut) {
      var r: Rule :| Allows(r, wires, cut);
      RuleDemandsColor(r, wires, cut);
    } else {
      assert !Allows(Rule11, wires, cut);
    }
  }

  /** Rule 11 does fire on a position that is already cut. */
  lemma BetweenGreensFiresOnCutPosition()
    ensures BetweenGreens([Some(Green), None, Some(Green)], 1)
  {
  }

  /** With exactly four wires present, any present blue wire may be cut. */
  lemma BlueCutWithFourPresent(wires: seq<Wire>, cut: nat)
    requires cut < |wires| && wires[cut] == Some(Blue) && Num(wires) == 4
    ensures Permitted(wires, cut)
  {
    PermittedIff(wires, cut);
    assert Allows(Rule6, wires, cut);
  }

  /** Rule 2 looks at the first present wire from two positions after the
      cut. When the position right after the cut is already cut, that is the
      same wire as the next present one, so the rule never fires. */
  lemma RedAfterTwoNeverWithCutNeighbour(wires: seq<Wire>, cut: nat)
    requires cut + 1 < |wires| && wires[cut + 1] == None
    ensures !RedAfterTwoBeforeRed(wires, cut)
  {
    assert wires[cut + 1..] == [None] + wires[cut + 2..];
  }

  // ---------------------------------------------------------------------------
  // Rule 2 read as "the first and the second present wire after the cut"

  /** The colours of the wires of `s` still present, in order. */
  function PresentColors(s: seq<Wire>): seq<Color>
  {
    if |s| == 0 then []
    else (if s[0].Some? then [s[0].value] else []) + PresentColors(s[1..])
  }

  /** Rule 2 as its description reads, counting present wires only: a red
      wire with exactly two wires before it, whose first wire after is red
      and whose second wire after, if any, is not red. */
  predicate RedAfterTwoBeforeRedIntended(wires: seq<Wire>, cut: nat)
    requires cut < |wires|
  {
    var after := PresentColors(wires[cut + 1..]);
    wires[cut] == Some(Red)
    && Num(wires[..cut]) == 2
    && |after| > 0 && after[0] == Red
    && (|after| == 1 || after[1] != Red)
  }

  /** The first present wire is the head of the present colours. */
  lemma {:induction false} FirstPresentIsHead(s: seq<Wire>)
    ensures FirstPresent(s) == if |PresentColors(s)| == 0 then None else Some(PresentColors(s)[0])
  {
    if |s| > 0 {
      FirstPresentIsHead(s[1..]);
    }
  }

  /** The intended rule 2 agrees with the rule as written except when the
      position right after the cut is already cut. */
  lemma RedAfterTwoIntendedAgrees(wires: seq<Wire>, cut: nat)
    requires cut < |wires|
    requires cut + 1 == |wires| || wires[cut + 1] != None
    ensures RedAfterTwoBeforeRedIntended(wires, cut) == RedAfterTwoBeforeRed(wires, cut)
  {
    var s := wires[cut + 1..];
    FirstPresentIsHead(s);
    if |s| > 0 {
      assert s[1..] == wires[cut + 2..];
      FirstPresentIsHead(s[1..]);
      assert PresentColors(s) == [s[0].value] + PresentColors(s[1..]);
    }
  }

  /** The intended rule 2 does fire past a cut neighbour, where the rule as
      written refuses. */
  lemma RedAfterTwoIntendedPastCutNeighbour()
    ensures RedAfterTwoBeforeRedIntended([Some(Green), Some(Green), Some(Red), None, Some(Red), Some(Blue)], 2)
    ensures !RedAfterTwoBeforeRed([Some(Green), Some(Green), Some(Red), None, Some(Red), Some(Blue)], 2)
  {
    var w := [Some(Green), Some(Green), Some(Red), None, Some(Red), Some(Blue)];
    var after: seq<Wire> := [None, Some(Red), Some(Blue)];
    assert w[3..] == after && after[1..] == [Some(Red), Some(Blue)];
    assert [Some(Red), Some(Blue)][1..] == [Some(Blue)] && [Some(Blue)][1..] == [];
    assert PresentColors(after) == [Red, Blue];
    assert w[..2] == [Some(Green), Some(Green)];
    RedAfterTwoNeverWithCutNeighbour(w, 2);
  }
}
