/**
 * The writer of the log benchmark: messages in groups of 5000, a pause each time `sleep_step` messages
 * have gone by, and a step that halves after a group with losses and grows by 250 otherwise.
 */
module Pacing {
  import opened Text

  const GROUP := 5000
  const INCREASE := 250

  /** The step after a group, from the miss counts read before and after it. */
  function NextStep(step: nat, before: int, after: int): nat {
    if after - before > 0 then (if step / 2 == 0 then 1 else step / 2)
    else if step + INCREASE > GROUP then GROUP
    else step + INCREASE
  }

  /** Where in a group the writer pauses: the positive multiples of the step. */
  function Pauses(step: nat): (r: seq<nat>)
    requires step > 0
  {
    seq((GROUP - 1) / step, i requires i >= 0 => (i + 1) * step)
  }

  /** The steps of the groups to come. */
  function Steps(step: nat, counts: seq<(int, int)>): seq<nat>
    decreases |counts|
  {
    if counts == [] then [] else [step] + Steps(NextStep(step, counts[0].0, counts[0].1), counts[1..])
  }

  /** The step after all groups. */
  function FinalStep(step: nat, counts: seq<(int, int)>): nat
    decreases |counts|
  {
    if counts == [] then step else FinalStep(NextStep(step, counts[0].0, counts[0].1), counts[1..])
  }

  /** One group: the pauses are counted by a running step that restarts at each of them. */
  method WriteGroup(sleepStep: nat, async: bool) returns (paused: seq<nat>)
    requires 1 <= sleepStep <= GROUP
    ensures paused == if async then Pauses(sleepStep) else []
  {
    var step := 0;
    paused := [];
    var j := 0;
    while j < GROUP
      invariant 0 <= j <= GROUP
      invariant !async ==> paused == []
      invariant async ==> j == |paused| * sleepStep + step && (if j == 0 then step == 0 else 1 <= step <= sleepStep)
                          && (j == 0 ==> paused == [])
      invariant async ==> forall i :: 0 <= i < |paused| ==> paused[i] == (i + 1) * sleepStep
    {
      if async && step == sleepStep {
        paused := paused + [j];
        step := 0;
      }
      j, step := j + 1, step + 1;
    }
    if async {
      QuotientIs(GROUP - 1, sleepStep, |paused|);
      assert paused == Pauses(sleepStep);
    }
  }

  /**
   * A run over num messages. `counts` holds the miss count as read before and after each group; another
   * thread changes it in between. Group i pauses at the multiples of the step that the misses of the
   * groups before it have left.
   */
  method WriteLog(num: int, async: bool, counts: seq<(int, int)>) returns (pauses: seq<seq<nat>>, sleepStep: nat)
    requires num >= 0 ==> |counts| == num / GROUP
    requires num < 0 ==> counts == []
    ensures |pauses| == |counts|
    ensures async ==> forall i :: 0 <= i < |counts| ==>
                        FinalStep(GROUP, counts[..i]) > 0 && Ascending(pauses[i])
                        && forall j :: j in pauses[i] <==> 0 < j < 5000 && j % FinalStep(GROUP, counts[..i]) == 0
    ensures async ==> |pauses| == |Steps(GROUP, counts)| == |counts| && sleepStep == FinalStep(GROUP, counts)
    ensures async ==> forall i :: 0 <= i < |pauses| ==> Steps(GROUP, counts)[i] > 0
                                                        && pauses[i] == Pauses(Steps(GROUP, counts)[i])
    ensures !async ==> sleepStep == GROUP && forall i :: 0 <= i < |pauses| ==> pauses[i] == []
  {
    sleepStep := GROUP;
    pauses := [];
    StepsLength(GROUP, counts);
    var i := 0;
    while i < |counts|
      invariant 0 <= i <= |counts| && |pauses| == i && 1 <= sleepStep <= GROUP
      invariant async ==> sleepStep == FinalStep(GROUP, counts[..i])
      invariant async ==> forall k :: 0 <= k < i ==>
                            FinalStep(GROUP, counts[..k]) == Steps(GROUP, counts)[k] > 0
                            && pauses[k] == Pauses(Steps(GROUP, counts)[k])
      invariant !async ==> sleepStep == GROUP && forall k :: 0 <= k < i ==> pauses[k] == []
    {
      var paused := WriteGroup(sleepStep, async);
      pauses := pauses + [paused];
      if async {
        StepsAre(GROUP, counts, i);
        FinalStepGrows(GROUP, counts[..i], counts[i]);
        assert counts[..i + 1] == counts[..i] + [counts[i]];
        var diff := counts[i].1 - counts[i].0;
        if diff > 0 {
          sleepStep := sleepStep / 2;
          if sleepStep == 0 { sleepStep := 1; }
        } else {
          sleepStep := sleepStep + INCREASE;
          if sleepStep > GROUP { sleepStep := GROUP; }
        }
      }
      i := i + 1;
    }
    assert counts[..|counts|] == counts;
    if async {
      forall k, j | 0 <= k < |counts|
        ensures j in pauses[k] <==> 0 < j < 5000 && j % FinalStep(GROUP, counts[..k]) == 0
      {
        StepStaysInRange(GROUP, counts[..k]);
        PausesAreMultiples(FinalStep(GROUP, counts[..k]), if j < 0 then 0 else j);
      }
      forall k | 0 <= k < |counts| ensures Ascending(pauses[k]) {
        StepStaysInRange(GROUP, counts[..k]);
        PausesAscend(FinalStep(GROUP, counts[..k]));
      }
    }
  }

  predicate Ascending(s: seq<nat>) {
    forall i, j :: 0 <= i < j < |s| ==> s[i] < s[j]
  }

  lemma PausesAscend(step: nat)
    requires 1 <= step <= GROUP
    ensures Ascending(Pauses(step))
  {
    var p := Pauses(step);
    forall i, j | 0 <= i < j < |p| ensures p[i] < p[j] {
      MulMonotone(i + 2, j + 1, step);
      assert p[i] == (i + 1) * step && p[j] == (j + 1) * step && (i + 2) * step == (i + 1) * step + step;
    }
  }

  /** The step of group i is what the groups before it have left. */
  lemma {:induction false} StepsAre(step: nat, counts: seq<(int, int)>, i: nat)
    requires i < |counts|
    ensures |Steps(step, counts)| == |counts| && Steps(step, counts)[i] == FinalStep(step, counts[..i])
    decreases |counts|
  {
    StepsLength(step, counts);
    if i > 0 {
      StepsAre(NextStep(step, counts[0].0, counts[0].1), counts[1..], i - 1);
      assert counts[..i][1..] == counts[1..][..i - 1];
    }
  }

  /** One more group halves the step, to 1 at least, if messages were missed in it, and adds 250, up to 5000, if not. */
  lemma {:induction false} FinalStepGrows(step: nat, counts: seq<(int, int)>, c: (int, int))
    ensures var s := FinalStep(step, counts);
            FinalStep(step, counts + [c]) == if c.1 > c.0 then Max(1, s / 2) else Min(5000, s + 250)
    decreases |counts|
  {
    if counts == [] {
      assert ([] + [c])[1..] == [];
    } else {
      FinalStepGrows(NextStep(step, counts[0].0, counts[0].1), counts[1..], c);
      assert (counts + [c])[1..] == counts[1..] + [c];
    }
  }

  lemma {:induction false} StepsLength(step: nat, counts: seq<(int, int)>)
    ensures |Steps(step, counts)| == |counts|
    decreases |counts|
  {
    if counts != [] {
      StepsLength(NextStep(step, counts[0].0, counts[0].1), counts[1..]);
    }
  }

  /** A group pauses exactly at the positive positions that the step divides, floor(4999 / step) times. */
  lemma PausesAreMultiples(step: nat, j: nat)
    requires 1 <= step <= GROUP
    ensures j in Pauses(step) <==> 0 < j < GROUP && j % step == 0
    ensures |Pauses(step)| == (GROUP - 1) / step
  {
    var n := (GROUP - 1) / step;
    assert n * step <= GROUP - 1 < (n + 1) * step;
    if 0 < j < GROUP && j % step == 0 {
      var q := j / step;
      assert j == q * step && q > 0;
      if q > n {
        MulMonotone(n + 1, q, step);
      }
      assert Pauses(step)[q - 1] == j;
    }
    if j in Pauses(step) {
      var i :| 0 <= i < n && Pauses(step)[i] == j;
      MulMonotone(i + 1, n, step);
      MultipleHasNoRemainder(i + 1, step);
      MulMonotone(1, i + 1, step);
    }
  }

  lemma MultipleHasNoRemainder(q: nat, s: nat)
    requires s > 0
    ensures (q * s) % s == 0
  {
    QuotientIs(q * s, s, q);
  }

  /** Over any history of losses the step stays between 1 and 5000. */
  lemma {:induction false} StepStaysInRange(step: nat, counts: seq<(int, int)>)
    requires 1 <= step <= GROUP
    ensures 1 <= FinalStep(step, counts) <= GROUP
    decreases |counts|
  {
    if counts != [] {
      StepStaysInRange(NextStep(step, counts[0].0, counts[0].1), counts[1..]);
    }
  }

  /** Groups without losses add 250 each, up to 5000. */
  lemma {:induction false} LosslessGroups(step: nat, counts: seq<(int, int)>)
    requires 1 <= step <= GROUP && forall i :: 0 <= i < |counts| ==> counts[i].1 <= counts[i].0
    ensures var s := step + INCREASE * |counts|;
            FinalStep(step, counts) == if s > GROUP then GROUP else s
    decreases |counts|
  {
    if counts != [] {
      LosslessGroups(NextStep(step, counts[0].0, counts[0].1), counts[1..]);
    }
  }

  /** Groups with losses halve the step each, down to 1. */
  lemma {:induction false} LossyGroups(step: nat, counts: seq<(int, int)>)
    requires 1 <= step <= GROUP && forall i :: 0 <= i < |counts| ==> counts[i].1 > counts[i].0
    ensures Pow(2, |counts|) > 0
    ensures var q := step / Pow(2, |counts|);
            FinalStep(step, counts) == if q == 0 then 1 else q
    decreases |counts|
  {
    if counts != [] {
      var next := NextStep(step, counts[0].0, counts[0].1);
      LossyGroups(next, counts[1..]);
      DivDiv(step, 2, Pow(2, |counts| - 1));
      if step / 2 == 0 {
        OneOver(Pow(2, |counts| - 1));
      }
    }
  }

  lemma OneOver(p: nat)
    requires p > 0
    ensures 1 / p <= 1 && 0 / p == 0
  {
    QuotientIs(0, p, 0);
    if p > 1 {
      QuotientIs(1, p, 0);
    }
  }
}
