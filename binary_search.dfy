/** The binary search tracer: bisection over a sorted sequence with inclusive
    bounds l and r, recording at every step the bounds, the probe mid, the
    probed value and the decision taken. */
module BinarySearch {

  /** The decision printed after each probe. */
  datatype Move = Found | MoveRight | MoveLeft

  /** One printed step: "l = .., r = .., mid = ..", "a[mid] = ..", then the decision. */
  datatype Step = Step(l: int, r: int, mid: int, value: int, move: Move)

  /** The final report: "Target found at index i" or "Target not found". */
  datatype Outcome = FoundAt(index: int) | NotFound

  ghost predicate Sorted(a: seq<int>)
  {
    forall i, j :: 0 <= i < j < |a| ==> a[i] <= a[j]
  }

  /** The steps bisection takes from the bounds l .. r (inclusive; empty when l > r). */
  function Bisection(a: seq<int>, target: int, l: int, r: int): seq<Step>
    requires 0 <= l <= r + 1 <= |a|
    decreases r - l
  {
    if l > r then []
    else
      var mid := l + (r - l) / 2;
      if a[mid] == target then [Step(l, r, mid, a[mid], Found)]
      else if a[mid] < target then [Step(l, r, mid, a[mid], MoveRight)] + Bisection(a, target, mid + 1, r)
      else [Step(l, r, mid, a[mid], MoveLeft)] + Bisection(a, target, l, mid - 1)
  }

  /** A probe recorded while searching l .. r: its bounds lie within l .. r and
      hold mid; the printed value is a[mid]; it is Found exactly when it probed the target. */
  ghost predicate Probe(a: seq<int>, target: int, l: int, r: int, s: Step)
  {
    l <= s.l <= s.mid <= s.r <= r && 0 <= s.mid < |a| && s.value == a[s.mid] && (s.move == Found <==> s.value == target)
  }

  /** Every step is a probe within l .. r, and only the last step can be Found. */
  lemma {:induction false} BisectionSteps(a: seq<int>, target: int, l: int, r: int)
    requires 0 <= l <= r + 1 <= |a|
    decreases r - l
    ensures forall k :: 0 <= k < |Bisection(a, target, l, r)| ==> Probe(a, target, l, r, Bisection(a, target, l, r)[k])
    ensures forall k :: 0 <= k < |Bisection(a, target, l, r)| - 1 ==> Bisection(a, target, l, r)[k].move != Found
  {
    if l <= r {
      var mid := l + (r - l) / 2;
      if a[mid] < target {
        BisectionSteps(a, target, mid + 1, r);
      } else if a[mid] > target {
        BisectionSteps(a, target, l, mid - 1);
      }
    }
  }

  /** The report that ends a run with these steps. */
  function OutcomeOf(steps: seq<Step>): Outcome
  {
    if steps != [] && steps[|steps| - 1].move == Found then FoundAt(steps[|steps| - 1].mid) else NotFound
  }

  /** In a run where only the last step can hit, "not found" is reported
      exactly when no step hit. */
  lemma MissesOnly(steps: seq<Step>)
    requires forall k :: 0 <= k < |steps| - 1 ==> steps[k].move != Found
    ensures OutcomeOf(steps) == NotFound <==> forall k :: 0 <= k < |steps| ==> steps[k].move != Found
  {
  }

  /** A run reports "not found" exactly when none of its probes hit. */
  lemma NotFoundIffNoHit(a: seq<int>, target: int, l: int, r: int)
    requires 0 <= l <= r + 1 <= |a|
    ensures var steps := Bisection(a, target, l, r);
      OutcomeOf(steps) == NotFound <==> forall k :: 0 <= k < |steps| ==> steps[k].move != Found
  {
    BisectionSteps(a, target, l, r);
    MissesOnly(Bisection(a, target, l, r));
  }

  /** Binary digits of s: ceil(log2(s + 1)). */
  function Bits(s: nat): nat
  {
    if s == 0 then 0 else 1 + Bits(s / 2)
  }

  function Pow2(k: nat): nat
  {
    if k == 0 then 1 else 2 * Pow2(k - 1)
  }

  lemma {:induction false} BitsMonotone(x: nat, y: nat)
    requires x <= y
    ensures Bits(x) <= Bits(y)
  {
    if x > 0 {
      BitsMonotone(x / 2, y / 2);
    }
  }

  /** Bits(s) is the least k with s < 2^k, i.e. ceil(log2(s + 1)). */
  lemma {:induction false} BitsIsLog(s: nat)
    ensures s < Pow2(Bits(s))
    ensures s > 0 ==> Pow2(Bits(s) - 1) <= s
  {
    if s > 0 {
      BitsIsLog(s / 2);
    }
  }

  /** A found report names an index holding the target. */
  lemma FoundIsCorrect(a: seq<int>, target: int, l: int, r: int)
    requires 0 <= l <= r + 1 <= |a|
    ensures OutcomeOf(Bisection(a, target, l, r)).FoundAt? ==>
      l <= OutcomeOf(Bisection(a, target, l, r)).index <= r &&
      a[OutcomeOf(Bisection(a, target, l, r)).index] == target
  {
    BisectionSteps(a, target, l, r);
  }

  /** Where bounds l .. r go after a probe that misses. */
  function NextBounds(a: seq<int>, target: int, l: int, r: int): (b: (int, int))
    requires 0 <= l <= r < |a|
    ensures l <= b.0 <= b.1 + 1 <= r + 1
    ensures b.1 - b.0 + 1 <= (r - l + 1) / 2
  {
    var mid := l + (r - l) / 2;
    if a[mid] < target then (mid + 1, r) else (l, mid - 1)
  }

  /** A probe that misses is followed by the bisection of the half the target can lie in. */
  lemma BisectionMiss(a: seq<int>, target: int, l: int, r: int)
    requires 0 <= l <= r < |a|
    requires a[l + (r - l) / 2] != target
    ensures var mid := l + (r - l) / 2;
      Bisection(a, target, l, r) ==
        [Step(l, r, mid, a[mid], if a[mid] < target then MoveRight else MoveLeft)] +
        Bisection(a, target, NextBounds(a, target, l, r).0, NextBounds(a, target, l, r).1)
  {
    var mid := l + (r - l) / 2;
    if a[mid] < target {
      assert NextBounds(a, target, l, r) == (mid + 1, r);
    } else {
      assert NextBounds(a, target, l, r) == (l, mid - 1);
    }
  }

  /** The loop's account of the steps taken, after a probe below the target:
      the step is recorded and the search goes on in mid + 1 .. r. */
  lemma MoveRightStep(a: seq<int>, target: int, l: int, r: int, mid: int, steps: seq<Step>)
    requires 0 <= l <= r < |a| && mid == l + (r - l) / 2 && a[mid] < target
    ensures (steps + [Step(l, r, mid, a[mid], MoveRight)]) + Bisection(a, target, mid + 1, r) ==
      steps + Bisection(a, target, l, r)
    ensures OutcomeOf(steps + [Step(l, r, mid, a[mid], MoveRight)]) == NotFound
  {
    var step := Step(l, r, mid, a[mid], MoveRight);
    var rest := Bisection(a, target, mid + 1, r);
    UnfoldMoveRight(a, target, l, r, mid);
    Regroup(steps, step, rest);
  }

  /** One unfolding of Bisection at a probe above the target. */
  lemma UnfoldMoveLeft(a: seq<int>, target: int, l: int, r: int, mid: int)
    requires 0 <= l <= r < |a| && mid == l + (r - l) / 2 && a[mid] > target
    ensures Bisection(a, target, l, r) == [Step(l, r, mid, a[mid], MoveLeft)] + Bisection(a, target, l, mid - 1)
  {
    assert 0 <= (r - l) / 2 <= r - l;
  }

  /** One unfolding of Bisection at a probe below the target. */
  lemma UnfoldMoveRight(a: seq<int>, target: int, l: int, r: int, mid: int)
    requires 0 <= l <= r < |a| && mid == l + (r - l) / 2 && a[mid] < target
    ensures Bisection(a, target, l, r) == [Step(l, r, mid, a[mid], MoveRight)] + Bisection(a, target, mid + 1, r)
  {
    assert 0 <= (r - l) / 2 <= r - l;
  }

  lemma Regroup(steps: seq<Step>, step: Step, rest: seq<Step>)
    ensures (steps + [step]) + rest == steps + ([step] + rest)
  {
  }

  /** The same after a probe above the target: the search goes on in l .. mid - 1. */
  lemma MoveLeftStep(a: seq<int>, target: int, l: int, r: int, mid: int, steps: seq<Step>)
    requires 0 <= l <= r < |a| && mid == l + (r - l) / 2 && a[mid] > target
    ensures (steps + [Step(l, r, mid, a[mid], MoveLeft)]) + Bisection(a, target, l, mid - 1) ==
      steps + Bisection(a, target, l, r)
    ensures OutcomeOf(steps + [Step(l, r, mid, a[mid], MoveLeft)]) == NotFound
  {
    var step := Step(l, r, mid, a[mid], MoveLeft);
    var rest := Bisection(a, target, l, mid - 1);
    UnfoldMoveLeft(a, target, l, r, mid);
    Regroup(steps, step, rest);
  }

  /** A probe that hits is the last step, and the report names it. */
  lemma FoundStep(a: seq<int>, target: int, l: int, r: int, mid: int, steps: seq<Step>)
    requires 0 <= l <= r < |a| && mid == l + (r - l) / 2 && a[mid] == target
    ensures steps + [Step(l, r, mid, a[mid], Found)] == steps + Bisection(a, target, l, r)
    ensures OutcomeOf(steps + [Step(l, r, mid, a[mid], Found)]) == FoundAt(mid)
  {
  }

  /** Empty bounds take no steps. */
  lemma EmptyBounds(a: seq<int>, target: int, l: int, r: int, steps: seq<Step>)
    requires 0 <= l == r + 1 <= |a|
    ensures steps + Bisection(a, target, l, r) == steps
  {
    assert Bisection(a, target, l, r) == [];
  }

  /** A probe that misses does not change the report: it comes from the half searched next. */
  lemma OutcomeAfterMiss(a: seq<int>, target: int, l: int, r: int)
    requires 0 <= l <= r < |a|
    requires a[l + (r - l) / 2] != target
    ensures OutcomeOf(Bisection(a, target, l, r)) ==
      OutcomeOf(Bisection(a, target, NextBounds(a, target, l, r).0, NextBounds(a, target, l, r).1))
  {
    BisectionMiss(a, target, l, r);
  }

  /** On a sorted sequence whose target occurrences all lie within l .. r,
      bisection reports not found exactly when the target does not occur. */
  lemma {:induction false} NotFoundIsCorrect(a: seq<int>, target: int, l: int, r: int)
    requires Sorted(a) && 0 <= l <= r + 1 <= |a|
    requires forall i :: 0 <= i < |a| && a[i] == target ==> l <= i <= r
    decreases r - l
    ensures OutcomeOf(Bisection(a, target, l, r)) == NotFound <==> target !in a
  {
    if l > r {
      forall i | 0 <= i < |a|
        ensures a[i] != target
      {
      }
    } else {
      var mid := l + (r - l) / 2;
      if a[mid] == target {
        assert a[mid] in a;
      } else {
        OutcomeAfterMiss(a, target, l, r);
        var next := NextBounds(a, target, l, r);
        TargetInNextBounds(a, target, l, r);
        NotFoundIsCorrect(a, target, next.0, next.1);
      }
    }
  }

  /** In a sorted sequence, a probe that misses discards only a half without the target. */
  lemma TargetInNextBounds(a: seq<int>, target: int, l: int, r: int)
    requires Sorted(a) && 0 <= l <= r < |a|
    requires a[l + (r - l) / 2] != target
    requires forall i :: 0 <= i < |a| && a[i] == target ==> l <= i <= r
    ensures forall i :: 0 <= i < |a| && a[i] == target ==>
      NextBounds(a, target, l, r).0 <= i <= NextBounds(a, target, l, r).1
  {
  }

  /** Every step at least halves the range, so there are at most ceil(log2(r - l + 2)) steps. */
  lemma {:induction false} BisectionLength(a: seq<int>, target: int, l: int, r: int)
    requires 0 <= l <= r + 1 <= |a|
    decreases r - l
    ensures |Bisection(a, target, l, r)| <= Bits(r - l + 1)
  {
    var size := r - l + 1;
    if l <= r {
      assert Bits(size) == 1 + Bits(size / 2);
      var mid := l + (r - l) / 2;
      if a[mid] == target {
        assert |Bisection(a, target, l, r)| == 1;
      } else {
        BisectionMiss(a, target, l, r);
        var next := NextBounds(a, target, l, r);
        BisectionLength(a, target, next.0, next.1);
        BitsMonotone(next.1 - next.0 + 1, size / 2);
      }
    }
  }

  /** Over the whole of a there are at most ceil(log2(|a| + 1)) steps. */
  lemma SearchLength(a: seq<int>, target: int)
    ensures |Bisection(a, target, 0, |a| - 1)| <= Bits(|a|)
  {
    BisectionLength(a, target, 0, |a| - 1);
    var size := |a| - 1 - 0 + 1;
    assert size == |a|;
  }

  /** What the trace and report of Search promise: a found index holds the
      target; "not found" is reported exactly when no probe hit; on sorted
      input "not found" means the target is absent; at most
      ceil(log2(|a| + 1)) steps; nothing at all on an empty sequence. */
  lemma WholeSearch(a: seq<int>, target: int, steps: seq<Step>, outcome: Outcome)
    requires steps == Bisection(a, target, 0, |a| - 1) && outcome == OutcomeOf(steps)
    ensures outcome.FoundAt? ==> 0 <= outcome.index < |a| && a[outcome.index] == target
    ensures Sorted(a) ==> (outcome == NotFound <==> target !in a)
    ensures |steps| <= Bits(|a|)
    ensures a == [] ==> steps == [] && outcome == NotFound
    ensures outcome == NotFound <==> forall k :: 0 <= k < |steps| ==> steps[k].move != Found
  {
    NotFoundIffNoHit(a, target, 0, |a| - 1);
    FoundIsCorrect(a, target, 0, |a| - 1);
    if Sorted(a) {
      NotFoundIsCorrect(a, target, 0, |a| - 1);
    }
    SearchLength(a, target);
  }

  /** The tracer: bisection over the whole of a. Its trace and report are those
      of Bisection and OutcomeOf, whose properties WholeSearch states. */
  method Search(a: seq<int>, target: int) returns (outcome: Outcome, steps: seq<Step>)
    ensures steps == Bisection(a, target, 0, |a| - 1)
    ensures outcome == OutcomeOf(steps)
  {
    var l, r := 0, |a| - 1;
    steps := [];
    outcome := NotFound;
    while l <= r
      invariant 0 <= l <= r + 1 <= |a|
      invariant steps + Bisection(a, target, l, r) == Bisection(a, target, 0, |a| - 1)
      invariant outcome == NotFound && OutcomeOf(steps) == NotFound
      decreases r - l
    {
      var mid := l + (r - l) / 2;
      if a[mid] == target {
        FoundStep(a, target, l, r, mid, steps);
        steps := steps + [Step(l, r, mid, a[mid], Found)];
        outcome := FoundAt(mid);
        return;
      } else if a[mid] < target {
        MoveRightStep(a, target, l, r, mid, steps);
        steps := steps + [Step(l, r, mid, a[mid], MoveRight)];
        l := mid + 1;
      } else {
        MoveLeftStep(a, target, l, r, mid, steps);
        steps := steps + [Step(l, r, mid, a[mid], MoveLeft)];
        r := mid - 1;
      }
    }
    EmptyBounds(a, target, l, r, steps);
  }

  /** The run on 1 3 5 7 9 11 with target 7 probes indices 2, 4, 3 and reports index 3. */
  lemma ScenarioFound()
    ensures Bisection([1, 3, 5, 7, 9, 11], 7, 0, 5) ==
      [Step(0, 5, 2, 5, MoveRight), Step(3, 5, 4, 9, MoveLeft), Step(3, 3, 3, 7, Found)]
    ensures OutcomeOf(Bisection([1, 3, 5, 7, 9, 11], 7, 0, 5)) == FoundAt(3)
  {
  }

  /** Running the tracer on 1 3 5 7 9 11 with target 7 prints those three steps and reports index 3. */
  method RunFound() returns (outcome: Outcome, steps: seq<Step>)
    ensures steps == [Step(0, 5, 2, 5, MoveRight), Step(3, 5, 4, 9, MoveLeft), Step(3, 3, 3, 7, Found)]
    ensures outcome == FoundAt(3)
  {
    outcome, steps := Search([1, 3, 5, 7, 9, 11], 7);
    ScenarioFound();
  }
}
