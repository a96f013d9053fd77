/** The breathing phases of `BreathingAnimation.types.ts`: the union type
    `-1 | 0 | 1 | 2 | 3`, the start value and the number of cycle phases. */
module Phases {

  /** The five values of the phase union. */
  type Phase = p: int | -1 <= p <= 3

  /** The value shown before the first activation and after a reset. */
  const START_PHASE: Phase := -1

  /** Number of phases in one breathing cycle (in, hold, out, hold). */
  const NUM_PHASES: int := 4

  /** A phase of the running cycle, as opposed to the start value. */
  predicate IsCyclePhase(p: int) {
    0 <= p < NUM_PHASES
  }

  /** Every phase value, as a set. */
  function AllPhases(): (ps: set<Phase>)
    ensures forall p: int :: p in ps <==> -1 <= p <= 3
  {
    {-1, 0, 1, 2, 3}
  }

  /** The cycle phases, as a set. */
  function CyclePhases(): (ps: set<Phase>)
    ensures forall p: int :: p in ps <==> IsCyclePhase(p)
  {
    {0, 1, 2, 3}
  }

  /** The phase union has exactly five values, the start value is the only
      one outside the cycle, and the cycle has NUM_PHASES values. */
  lemma PhaseCensus()
    ensures AllPhases() == CyclePhases() + {START_PHASE}
    ensures |AllPhases()| == 5
    ensures AllPhases() - CyclePhases() == {START_PHASE}
    ensures |CyclePhases()| == NUM_PHASES
  {
  }

  /** The next phase of the cycle: `(p + 1) % NUM_PHASES` with a
      non-negative dividend, as the phase label component computes it. */
  function Successor(p: Phase): (q: Phase)
    requires IsCyclePhase(p)
    ensures IsCyclePhase(q) && q != START_PHASE
    ensures p < NUM_PHASES - 1 ==> q == p + 1
    ensures p == NUM_PHASES - 1 ==> q == 0
  {
    (p + 1) % NUM_PHASES
  }

  /** The successor is a bijection on the cycle phases with no fixed point. */
  lemma SuccessorPermutesCycle(p: Phase, q: Phase)
    requires IsCyclePhase(p) && IsCyclePhase(q)
    ensures Successor(p) == Successor(q) ==> p == q
    ensures Successor(p) != p
  {
  }

  /** Starting anywhere on the cycle, NUM_PHASES successive steps visit
      every cycle phase once and come back to the start. */
  lemma SuccessorOrbit(p: Phase)
    requires IsCyclePhase(p)
    ensures var p1 := Successor(p); var p2 := Successor(p1); var p3 := Successor(p2);
      {p, p1, p2, p3} == CyclePhases() && Successor(p3) == p
  {
  }
}
