/**
 * The per-property fragment loop shared by jaiqu/jaiqu.py and the Burr ports:
 * for each identified property, ask the model for a jq fragment; skip the
 * property when the answer is exactly "None"; otherwise check and repair the
 * fragment until it runs or the retry bound is hit. The ports differ only in how
 * they count retries, so what one property's turn did is recorded here once.
 */
module Fragments {
  import opened Wrappers
  import opened OrderedMaps
  import opened Types
  import opened RepairLoops

  /** What happened to one identified property during fragment synthesis. */
  datatype FragmentStep =
    | Skipped(key: string)                                  // the model answered "None"
    | Looped(key: string, initial: string, attempt: Attempt) // the fragment went through the repair loop

  /** The fragments the steps verified, in step order. */
  function Verified(steps: seq<FragmentStep>): OMap<string>
  {
    if |steps| == 0 then []
    else
      var head := match steps[0]
        case Looped(k, _, a) => if a.passed then [(k, a.text)] else []
        case Skipped(_) => [];
      head + Verified(steps[1..])
  }

  /** Calls of the repair oracle made by the fragment loops of `steps`. */
  function FragmentRepairs(steps: seq<FragmentStep>): nat
  {
    if |steps| == 0 then 0
    else (if steps[0].Looped? then steps[0].attempt.repairs else 0) + FragmentRepairs(steps[1..])
  }

  /** Every kept fragment belongs to a property whose fragment went through the loop. */
  lemma {:induction false} VerifiedKeys(steps: seq<FragmentStep>, k: string)
    requires k in Keys(Verified(steps))
    ensures exists j :: 0 <= j < |steps| && steps[j].Looped? && steps[j].key == k
  {
    var rest := Verified(steps[1..]);
    var head := Verified(steps)[..|Verified(steps)| - |rest|];
    assert Verified(steps) == head + rest;
    var i :| 0 <= i < |Verified(steps)| && Verified(steps)[i].0 == k;
    if i < |head| {
      assert steps[0].Looped? && steps[0].key == k;
    } else {
      assert rest[i - |head|].0 == k;
      assert Keys(rest)[i - |head|] == k;
      VerifiedKeys(steps[1..], k);
      var j :| 0 <= j < |steps[1..]| && steps[1..][j].Looped? && steps[1..][j].key == k;
      assert steps[j + 1] == steps[1..][j];
    }
  }

  /** Step `step` is what the loop does with the property `entry`. */
  predicate StepFor(o: Oracles, step: FragmentStep, entry: (string, PropertyResult))
  {
    && step.key == entry.0
    && (step.Skipped? <==> o.createJqString(entry.0, entry.1) == NoneSentinel)
    && (step.Looped? ==> step.initial == o.createJqString(entry.0, entry.1))
    && (step.Looped? && step.attempt.passed ==> FragmentCheck(o, step.attempt.text) == Pass)
  }

  /** The step did not raise: it was skipped, or its fragment was verified. */
  predicate StepSucceeded(step: FragmentStep)
  {
    step.Looped? ==> step.attempt.passed
  }

  /**
   * When step `i` is for the `i`-th of `keys`, the kept fragments' keys are some
   * of `keys`, in their order.
   */
  lemma {:induction false} VerifiedKeysInOrder(steps: seq<FragmentStep>, keys: seq<string>)
    requires |steps| <= |keys|
    requires forall i :: 0 <= i < |steps| ==> steps[i].key == keys[i]
    ensures IsSubsequence(Keys(Verified(steps)), keys)
    decreases |steps|
  {
    if |steps| == 0 {
      assert Keys(Verified(steps)) == [];
    } else {
      assert forall i :: 0 <= i < |steps| - 1 ==> steps[1..][i] == steps[i + 1] && keys[1..][i] == keys[i + 1];
      VerifiedKeysInOrder(steps[1..], keys[1..]);
      var rest := Verified(steps[1..]);
      if steps[0].Looped? && steps[0].attempt.passed {
        assert Verified(steps) == [(keys[0], steps[0].attempt.text)] + rest;
        assert Keys(Verified(steps))[1..] == Keys(rest);
      } else {
        assert Verified(steps) == rest;
        SubsequenceWeaken(Keys(rest), keys);
      }
    }
  }

  /** When the steps are for distinct properties, a skipped property has no kept fragment. */
  lemma SkippedAreNotKept(steps: seq<FragmentStep>)
    requires forall i, j :: 0 <= i < j < |steps| ==> steps[i].key != steps[j].key
    ensures forall i :: 0 <= i < |steps| && steps[i].Skipped? ==> steps[i].key !in Keys(Verified(steps))
  {
    forall i | 0 <= i < |steps| && steps[i].Skipped?
      ensures steps[i].key !in Keys(Verified(steps))
    {
      if steps[i].key in Keys(Verified(steps)) {
        VerifiedKeys(steps, steps[i].key);
        assert false;
      }
    }
  }

  /** A fragment that was verified is kept under its property's name. */
  lemma {:induction false} VerifiedHasLooped(steps: seq<FragmentStep>, i: nat)
    requires i < |steps| && steps[i].Looped? && steps[i].attempt.passed
    ensures (steps[i].key, steps[i].attempt.text) in Verified(steps)
  {
    if i > 0 {
      VerifiedHasLooped(steps[1..], i - 1);
    }
  }

  /** Every step succeeded. */
  predicate AllSucceeded(steps: seq<FragmentStep>)
  {
    forall i :: 0 <= i < |steps| ==> StepSucceeded(steps[i])
  }

  /** The steps stopped at a failure: every step before the last succeeded, and the last did not. */
  predicate StoppedAtFailure(steps: seq<FragmentStep>)
  {
    |steps| > 0 && AllSucceeded(steps[..|steps| - 1]) && !StepSucceeded(steps[|steps| - 1])
  }

  /** A step that succeeded, put in front, keeps both shapes of a phase. */
  lemma PrependSucceeded(head: FragmentStep, rest: seq<FragmentStep>)
    requires StepSucceeded(head)
    ensures AllSucceeded(rest) ==> AllSucceeded([head] + rest)
    ensures StoppedAtFailure(rest) ==> StoppedAtFailure([head] + rest)
  {
    var steps := [head] + rest;
    if AllSucceeded(rest) {
      forall i | 0 < i < |steps|
        ensures StepSucceeded(steps[i])
      {
        assert steps[i] == rest[i - 1];
      }
    }
    if StoppedAtFailure(rest) {
      assert steps[..|steps| - 1] == [head] + rest[..|rest| - 1];
      forall i | 0 < i < |steps| - 1
        ensures StepSucceeded(steps[i])
      {
        assert steps[i] == rest[i - 1];
      }
    }
  }


  /** Calls of the check made by the fragment loops of `steps`. */
  function FragmentChecks(steps: seq<FragmentStep>): nat
  {
    if |steps| == 0 then 0
    else (if steps[0].Looped? then steps[0].attempt.checks else 0) + FragmentChecks(steps[1..])
  }

  /** When every step but the last was skipped, the loops' calls are the last step's. */
  lemma {:induction false} CallsOfLastStep(steps: seq<FragmentStep>)
    requires |steps| > 0
    requires forall j :: 0 <= j < |steps| - 1 ==> steps[j].Skipped?
    ensures var last := steps[|steps| - 1];
      && FragmentRepairs(steps) == (if last.Looped? then last.attempt.repairs else 0)
      && FragmentChecks(steps) == (if last.Looped? then last.attempt.checks else 0)
  {
    if |steps| > 1 {
      CallsOfLastStep(steps[1..]);
    }
  }

  /** Some identified property gets a fragment other than "None", so at least one fragment must be verified. */
  predicate HasFragmentToVerify(o: Oracles, entries: OMap<PropertyResult>)
  {
    exists i :: 0 <= i < |entries| && o.createJqString(entries[i].0, entries[i].1) != NoneSentinel
  }
}
