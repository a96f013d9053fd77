/** The label of one breathing phase (`BreathingAnimationText.tsx`): which
    styling subclass it takes given the phase it stands for, the phase now
    current, and how many phases the cycle has. */
module PhaseText {
  import opened Wrappers
  import opened Phases

  /** The three styling subclasses a label can take. */
  datatype Subclass = Active | After | Before

  function Abs(x: int): nat {
    if x < 0 then -x else x
  }

  /** JavaScript's `x % y` on integral numbers: NaN (here None) for a zero
      divisor, otherwise the remainder of truncating division, which takes
      the sign of the dividend. */
  function JsRemainder(x: int, y: int): (r: Option<int>)
    ensures r.None? <==> y == 0
    ensures r.Some? ==> Abs(r.value) < Abs(y)
    ensures r.Some? && x >= 0 ==> r.value >= 0
    ensures r.Some? && x < 0 ==> r.value <= 0
  {
    if y == 0 then None
    else if x >= 0 then Some(x % Abs(y))
    else Some(-((-x) % Abs(y)))
  }

  /** Negating the dividend negates the JavaScript remainder. */
  lemma JsRemainderNegated(x: int, y: int)
    requires y != 0
    ensures JsRemainder(-x, y) == Some(-JsRemainder(x, y).value)
  {
    var m := Abs(y);
    if x < 0 {
      assert JsRemainder(x, y) == Some(-((-x) % m));
      assert JsRemainder(-x, y) == Some((-x) % m);
    } else if x > 0 {
      assert JsRemainder(x, y) == Some(x % m);
      assert JsRemainder(-x, y) == Some(-(x % m));
    } else {
      ModBelow(0, m);
    }
  }

  /** The sign of the divisor does not matter; with the two lemmas around
      this one, the JavaScript remainder is pinned down for every sign
      combination by the mathematical remainder of natural numbers. */
  lemma JsRemainderDivisorSign(x: int, y: int)
    ensures JsRemainder(x, -y) == JsRemainder(x, y)
  {
    assert Abs(-y) == Abs(y);
  }

  /** A number already below the divisor is its own remainder. */
  lemma ModBelow(x: int, n: int)
    requires 0 <= x < n
    ensures x % n == x
  {
    assert x == n * 0 + x;
  }

  /** A number between the divisor and twice the divisor wraps round once. */
  lemma ModWrap(x: int, n: int)
    requires n > 0 && n <= x < 2 * n
    ensures x % n == x - n
  {
    assert x == n * 1 + (x - n);
  }

  /** On non-negative operands with a positive divisor the JavaScript and
      the mathematical remainder agree. */
  lemma JsRemainderOfNatural(x: nat, y: int)
    requires y > 0
    ensures JsRemainder(x, y) == Some(x % y)
  {
  }

  /** The subclass for the label standing for `activePhase` while
      `currentPhase` is current: the label of the current phase is active,
      the label of the phase just before it (whose successor is current) is
      after, and every other label is before. */
  function Classify(activePhase: int, currentPhase: int, totalPhases: int): (c: Subclass)
    ensures c == Active <==> currentPhase == activePhase
    ensures c == After <==>
      currentPhase != activePhase && JsRemainder(activePhase + 1, totalPhases) == Some(currentPhase)
  {
    if currentPhase == activePhase then Active
    else if JsRemainder(activePhase + 1, totalPhases) == Some(currentPhase) then After
    else Before
  }

  function SubclassName(c: Subclass): (name: string)
    ensures |name| > 0
  {
    match c
    case Active => "active"
    case After => "after"
    case Before => "before"
  }

  /** The class every label carries. */
  const BASE_CLASS: string := "BreathingAnimationText"

  /** The `className` the label renders with: two space-separated classes,
      the base class first and the subclass's name second. */
  function ClassName(c: Subclass): (name: string)
    ensures |name| > |BASE_CLASS| + 1
    ensures name[..|BASE_CLASS|] == BASE_CLASS && name[|BASE_CLASS|] == ' '
    ensures name[|BASE_CLASS| + 1..] == SubclassName(c)
  {
    BASE_CLASS + " " + SubclassName(c)
  }

  /** Different subclasses render different class names, so the class name
      tells the subclass apart. */
  lemma ClassNameDistinguishes(c1: Subclass, c2: Subclass)
    ensures ClassName(c1) == ClassName(c2) <==> c1 == c2
  {
    if c1 != c2 {
      var k := |BASE_CLASS| + 1;
      assert ClassName(c1)[k] != ClassName(c2)[k] || ClassName(c1)[k + 1] != ClassName(c2)[k + 1];
    }
  }

  /** With n labels standing for phases 0..n-1 and a current phase among
      them, a label is active exactly when it stands for the current phase
      and after exactly when it stands for the phase before the current one
      (cyclically), which needs at least two labels. */
  lemma LabelsAroundCurrent(a: int, cur: int, n: int)
    requires 0 <= a < n && 0 <= cur < n
    ensures Classify(a, cur, n) == Active <==> a == cur
    ensures Classify(a, cur, n) == After <==> n >= 2 && a == (cur + n - 1) % n
  {
    JsRemainderOfNatural(a + 1, n);
    if a + 1 < n {
      ModBelow(a + 1, n);
    } else {
      ModWrap(a + 1, n);
    }
    if cur >= 1 {
      ModWrap(cur + n - 1, n);
    } else {
      ModBelow(n - 1, n);
    }
  }

  /** Across the n labels exactly one is active and, once there are two or
      more labels, exactly one is after. */
  lemma ExactlyOneActiveOneAfter(cur: int, n: int)
    requires 0 <= cur < n
    ensures (set a | 0 <= a < n && Classify(a, cur, n) == Active) == {cur}
    ensures n >= 2 ==> (set a | 0 <= a < n && Classify(a, cur, n) == After) == {(cur + n - 1) % n}
  {
    forall a | 0 <= a < n {
      LabelsAroundCurrent(a, cur, n);
    }
    if n >= 2 {
      var p := (cur + n - 1) % n;
      assert 0 <= p < n;
      LabelsAroundCurrent(p, cur, n);
    }
  }

  /** A current phase that no label stands for, such as the start phase,
      leaves every label before. */
  lemma OutsideCurrentAllBefore(a: int, cur: int, n: int)
    requires 0 <= a < n && !(0 <= cur < n)
    ensures Classify(a, cur, n) == Before
  {
    JsRemainderOfNatural(a + 1, n);
  }

  /** For the four breathing phases the after label is the one whose
      successor is current. */
  lemma AfterIsPredecessor(a: Phase, cur: Phase)
    requires IsCyclePhase(a)
    ensures Classify(a, cur, NUM_PHASES) == After <==> cur != a && Successor(a) == cur
  {
    JsRemainderOfNatural(a + 1, NUM_PHASES);
  }

  /** The four labels (breathe in, hold, breathe out, hold) as the phase
      moves through the cycle: the current phase's label is active, the
      label three places on (the previous phase) is after, and the other two
      are before. Before the first phase every label is before. */
  lemma FourPhaseTable(p: Phase, a: Phase)
    requires IsCyclePhase(p) && IsCyclePhase(a)
    ensures a == p ==> Classify(a, p, NUM_PHASES) == Active
    ensures a == (p + 3) % NUM_PHASES ==> Classify(a, p, NUM_PHASES) == After
    ensures a != p && a != (p + 3) % NUM_PHASES ==> Classify(a, p, NUM_PHASES) == Before
    ensures Classify(a, START_PHASE, NUM_PHASES) == Before
  {
    LabelsAroundCurrent(a, p, NUM_PHASES);
    OutsideCurrentAllBefore(a, START_PHASE, NUM_PHASES);
  }
}
