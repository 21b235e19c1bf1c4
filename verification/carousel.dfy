/**
 The carousel: a step counter that the "next" button advances, wrapping
 after step 4, and the pair of display components shown for each step.
 The half-bright grey and leveled components appear only as tags.
 */
module Carousel {

  /** The display components the carousel can place in a pane. */
  datatype Display = Normal | Grey | HalfBright | HalfBrightGrey | Dithered | Leveled

  /** The two panes shown side by side. */
  datatype Panes = Panes(left: Display, right: Display)

  const InitialStep: int := 1

  predicate ValidStep(s: int) {
    1 <= s <= 4
  }

  /** The "next" button: one more, and back to 1 once that exceeds 4. */
  function NextStep(s: int): (t: int)
    ensures ValidStep(s) ==> ValidStep(t)
    ensures ValidStep(s) ==> (t - 1) == s % 4
  {
    var next := s + 1;
    if next > 4 then 1 else next
  }

  /** The components for a step; any step other than 1..4 shows the plain
      display twice, so the two panes differ exactly on the steps 1..4. */
  function PanesFor(s: int): (p: Panes)
    ensures p.left != p.right <==> ValidStep(s)
  {
    match s
    case 1 => Panes(Normal, Grey)
    case 2 => Panes(HalfBright, HalfBrightGrey)
    case 3 => Panes(Grey, Dithered)
    case 4 => Panes(Normal, Leveled)
    case _ => Panes(Normal, Normal)
  }

  /** The step after `k` presses starting from `s`. */
  function Presses(s: int, k: nat): int {
    if k == 0 then s else NextStep(Presses(s, k - 1))
  }

  /** From a valid step, every number of presses gives a valid step. */
  lemma {:induction false} PressesStayValid(s: int, k: nat)
    requires ValidStep(s)
    ensures ValidStep(Presses(s, k))
  {
    if k > 0 {
      PressesStayValid(s, k - 1);
    }
  }

  /** From the initial step, `k` presses lead to step `k % 4 + 1`. */
  lemma {:induction false} PressesFromStart(k: nat)
    ensures Presses(InitialStep, k) == k % 4 + 1
  {
    if k > 0 {
      PressesFromStart(k - 1);
    }
  }

  /** Four more presses return to the same step. */
  lemma {:induction false} PressesCycle(s: int, k: nat)
    requires ValidStep(s)
    ensures Presses(s, k + 4) == Presses(s, k)
  {
    if k == 0 {
      assert Presses(s, 1) == s % 4 + 1;
      assert Presses(s, 2) == (s + 1) % 4 + 1;
      assert Presses(s, 3) == (s + 2) % 4 + 1;
    } else {
      PressesCycle(s, k - 1);
    }
  }

  /** The default branch is taken exactly for the steps outside 1..4, so
      never on a step the carousel can reach. */
  lemma DefaultOnlyOffCycle(s: int)
    ensures PanesFor(s) == Panes(Normal, Normal) <==> !ValidStep(s)
  {
  }

  /** The four reachable steps show four different pairs. */
  lemma StepsShowDistinctPanes(s: int, t: int)
    requires ValidStep(s) && ValidStep(t) && PanesFor(s) == PanesFor(t)
    ensures s == t
  {
  }

  /** The panes shown after `k` presses from the start cycle through the
      four pairs in order; the default pair never appears. */
  lemma PanesAfterPresses(k: nat)
    ensures PanesFor(Presses(InitialStep, k)) != Panes(Normal, Normal)
    ensures k % 4 == 0 ==> PanesFor(Presses(InitialStep, k)) == Panes(Normal, Grey)
    ensures k % 4 == 1 ==> PanesFor(Presses(InitialStep, k)) == Panes(HalfBright, HalfBrightGrey)
    ensures k % 4 == 2 ==> PanesFor(Presses(InitialStep, k)) == Panes(Grey, Dithered)
    ensures k % 4 == 3 ==> PanesFor(Presses(InitialStep, k)) == Panes(Normal, Leveled)
  {
    PressesFromStart(k);
  }
}
