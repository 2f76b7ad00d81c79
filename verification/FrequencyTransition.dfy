/** do_frequency_transition of frequency_transition_bmXX.c: moving a running chip from one
    clock to another in steps. Frequencies are real numbers here. */
module FrequencyTransition {
  import opened Reals

  const STEP_SIZE: real := 6.25

  function Floor(x: real): int {
    x.Floor
  }

  function Ceil(x: real): int {
    -((-x).Floor)
  }

  // ---- what a ramp promises -----------------------------------------------------------------

  /** Where a list of requests leads from a start. */
  function Last(start: real, requests: seq<real>): real {
    if |requests| == 0 then start else requests[|requests| - 1]
  }

  /** Each request lies between the one before it and the target, at most one step on. */
  predicate Steady(start: real, target: real, requests: seq<real>) {
    forall i :: 0 <= i < |requests| ==> Between(Last(start, requests[..i]), requests[i], target)
  }

  predicate Between(from: real, next: real, target: real) {
    (from <= next <= target || target <= next <= from) && Abs(next - from) <= 6.25
  }

  /** A whole number of steps of 6.25 MHz. */
  predicate OnGrid(frequency: real) {
    frequency == Floor(frequency / 6.25) as real * 6.25
  }

  lemma WholeStep(k: int)
    ensures OnGrid(k as real * STEP_SIZE)
  {
    assert k as real * STEP_SIZE / 6.25 == k as real;
  }

  predicate AllOnGrid(requests: seq<real>) {
    forall i :: 0 <= i < |requests| ==> OnGrid(requests[i])
  }

  /** All requests but the last are on the grid. */
  predicate Stepped(requests: seq<real>) {
    |requests| > 0 ==> AllOnGrid(requests[..|requests| - 1])
  }

  lemma NothingOnGrid()
    ensures AllOnGrid([]) && Stepped([])
  {
  }

  lemma SteppedAppend(requests: seq<real>, next: real)
    requires AllOnGrid(requests)
    ensures Stepped(requests) && Stepped(requests + [next]) && (OnGrid(next) ==> AllOnGrid(requests + [next]))
  {
    hide OnGrid;
    assert (requests + [next])[..|requests|] == requests;
  }

  lemma SteadyAppend(start: real, target: real, requests: seq<real>, next: real)
    requires Steady(start, target, requests) && Between(Last(start, requests), next, target)
    ensures Steady(start, target, requests + [next])
  {
    var longer := requests + [next];
    forall i | 0 <= i < |longer| ensures Between(Last(start, longer[..i]), longer[i], target) {
      if i < |requests| {
        assert longer[..i] == requests[..i];
      } else {
        assert longer[..i] == requests;
      }
    }
  }

  /** All requests of a steady ramp run one way. */
  lemma {:induction false} Monotone(start: real, target: real, requests: seq<real>, i: nat, j: nat)
    requires Steady(start, target, requests) && i <= j < |requests|
    ensures start <= target ==> start <= requests[i] <= requests[j] <= target
    ensures start >= target ==> start >= requests[i] >= requests[j] >= target
    decreases j
  {
    assert Between(Last(start, requests[..j]), requests[j], target);
    if j > 0 {
      Monotone(start, target, requests, if i < j then i else j - 1, j - 1);
    }
  }

  lemma NoRequests(start: real, target: real)
    ensures Ramps(start, target, [], start)
  {
  }

  lemma SinceAppend(before: seq<real>, requests: seq<real>, next: real)
    requires before <= requests
    ensures (requests + [next])[|before|..] == requests[|before|..] + [next] && before <= requests + [next]
  {
  }

  lemma NoneSince(before: seq<real>)
    ensures before[|before|..] == []
  {
  }

  /** The requests of one transition that ends at reached. */
  predicate Ramps(start: real, target: real, requests: seq<real>, reached: real) {
    Steady(start, target, requests) && Last(start, requests) == reached
  }

  lemma RampsOn(start: real, target: real, requests: seq<real>, from: real, next: real)
    requires Ramps(start, target, requests, from) && Between(from, next, target)
    ensures Ramps(start, target, requests + [next], next)
  {
    SteadyAppend(start, target, requests, next);
  }

  // ---- the power management module ----------------------------------------------------------

  class Chip {
    /** frequency_value and actual_frequency. */
    var target: real
    var actual: real
    /** What set_frequency_fn was asked for, oldest first. */
    ghost var requests: seq<real>

    /** set_frequency_fn: answers with the clock the chip then runs at. */
    method SetFrequency(frequency: real, setFrequency: real -> real)
      modifies this`actual, this`requests
      ensures requests == old(requests) + [frequency] && actual == setFrequency(frequency)
    {
      requests := requests + [frequency];
      actual := setFrequency(frequency);
    }

    /** What this transition asked for. */
    ghost function Since(before: seq<real>): seq<real>
      requires |before| <= |requests|
      reads this
    {
      requests[|before|..]
    }

    /** do_frequency_transition. */
    method Transition(setFrequency: real -> real)
      modifies this`actual, this`requests
      ensures old(requests) <= requests
      ensures Steady(old(actual), target, Since(old(requests)))
      ensures Stepped(Since(old(requests)))
      ensures Abs(Last(old(actual), Since(old(requests))) - target) <= 0.0001
      ensures Abs(old(actual) - target) < 0.0001 <==> Since(old(requests)) == []
      ensures actual == if Since(old(requests)) == [] then old(actual)
                        else setFrequency(Last(old(actual), Since(old(requests))))
    {
      ghost var before, start := requests, actual;
      var currentFrequency := actual;
      NoRequests(start, target);
      NoneSince(before);
      hide Steady, Last, Floor, Ceil, Stepped, AllOnGrid, OnGrid;
      NothingOnGrid();
      SteppedAppend([], target);
      if Abs(currentFrequency - target) < EPSILON {
        return;
      }
      if Abs(target - currentFrequency) < STEP_SIZE {
        currentFrequency := target;
        RampsOn(start, target, [], start, target);
        SinceAppend(before, requests, target);
        SetFrequency(currentFrequency, setFrequency);
        return;
      }
      var up := target > currentFrequency;
      var currentStep := if up then Floor(currentFrequency / STEP_SIZE) else Ceil(currentFrequency / STEP_SIZE);
      var targetStep := if up then Floor(target / STEP_SIZE) else Ceil(target / STEP_SIZE);
      currentFrequency := Climb(setFrequency, up, currentStep, targetStep);
      SteppedAppend(Since(before), target);
      if Abs(currentFrequency - target) > EPSILON {
        RampsOn(start, target, Since(before), currentFrequency, target);
        SinceAppend(before, requests, target);
        SteppedAppend(Since(before), target);
        currentFrequency := target;
        SetFrequency(currentFrequency, setFrequency);
      }
    }

    /** The loop over whole steps. */
    method Climb(setFrequency: real -> real, up: bool, firstStep: int, targetStep: int) returns (currentFrequency: real)
      requires Abs(target - actual) >= STEP_SIZE && (up <==> target > actual)
      requires firstStep == if up then Floor(actual / STEP_SIZE) else Ceil(actual / STEP_SIZE)
      requires targetStep == if up then Floor(target / STEP_SIZE) else Ceil(target / STEP_SIZE)
      modifies this`actual, this`requests
      ensures old(requests) < requests
      ensures Ramps(old(actual), target, Since(old(requests)), currentFrequency)
      ensures currentFrequency == targetStep as real * STEP_SIZE && AllOnGrid(Since(old(requests)))
      ensures Between(currentFrequency, target, target)
      ensures actual == setFrequency(currentFrequency)
    {
      hide OnGrid, AllOnGrid, Stepped, Steady;
      ghost var before, start := requests, actual;
      NothingOnGrid();
      NoRequests(start, target);
      NoneSince(before);
      currentFrequency := actual;
      var currentStep := firstStep;
      var signum := if up then 1 else -1;
      while (signum > 0 && currentStep < targetStep) || (signum < 0 && currentStep > targetStep)
        invariant before <= requests && Ramps(start, target, Since(before), currentFrequency)
        invariant AllOnGrid(Since(before))
        invariant if up then firstStep <= currentStep <= targetStep else firstStep >= currentStep >= targetStep
        invariant currentStep == firstStep ==> requests == before && currentFrequency == start
        invariant currentStep != firstStep ==> before < requests && actual == setFrequency(currentFrequency)
        invariant currentStep != firstStep ==> currentFrequency == currentStep as real * STEP_SIZE
        decreases if up then targetStep - currentStep else currentStep - targetStep
      {
        currentStep := currentStep + signum;
        ghost var from := currentFrequency;
        currentFrequency := currentStep as real * STEP_SIZE;
        assert Between(from, currentFrequency, target);
        RampsOn(start, target, Since(before), from, currentFrequency);
        SinceAppend(before, requests, currentFrequency);
        WholeStep(currentStep);
        SteppedAppend(Since(before), currentFrequency);
        SetFrequency(currentFrequency, setFrequency);
      }
    }
  }
}
