/**
 * The pipeline of jaiqu/jaiqu.py (`translate_schema`): analyse the schema, stop if
 * it cannot be satisfied, synthesise and verify one jq fragment per identified
 * property, assemble the fragments into one object filter, then verify that filter
 * against the schema. One retry counter, `tries`, is shared by every loop of the run,
 * and a loop raises when a failure takes it past `max_retries`.
 */
module Jaiqu {
  import opened Wrappers
  import opened OrderedMaps
  import opened Types
  import opened Helpers
  import opened RepairLoops
  import opened SchemaValidation
  import opened Fragments

  /** The two `RuntimeError`s the pipeline raises. */
  datatype Failure =
    | SchemaUnsatisfiable(analysis: OMap<PropertyResult>)  // a required property has no input key
    | RetriesExhausted(maxRetries: int)                     // a failure took `tries` past `max_retries`

  /** The fragment phase: one step per property handled, the fragments kept, and the counter after it. */
  datatype FragmentPhase = FragmentPhase(steps: seq<FragmentStep>, filterQuery: OMap<string>, tries: int, completed: bool)

  /** A step that looped ran the fragment loop from its fragment with the counter at `tries`. */
  predicate LoopFrom(o: Oracles, step: FragmentStep, tries: int, maxRetries: int)
  {
    step.Looped? ==> step.attempt == RepairFirst(FragmentChecker(o), o.repairQuery, step.initial, tries, maxRetries + 1)
  }

  /** The repairs a step made: those of its loop, or none when it was skipped. */
  function StepRepairs(step: FragmentStep): nat
  {
    if step.Looped? then step.attempt.repairs else 0
  }

  /**
   * Every loop of `steps` is the fragment loop run from its property's fragment
   * with the shared counter where the earlier steps left it, starting from `tries`.
   */
  predicate SharedCounterLoops(o: Oracles, steps: seq<FragmentStep>, tries: int, maxRetries: int)
    decreases |steps|
  {
    |steps| > 0 ==>
      && LoopFrom(o, steps[0], tries, maxRetries)
      && SharedCounterLoops(o, steps[1..], tries + StepRepairs(steps[0]), maxRetries)
  }

  /** A step that left the counter where the rest of the phase starts keeps the loops tied to the shared counter. */
  lemma SharedCounterCons(o: Oracles, head: FragmentStep, rest: seq<FragmentStep>, tries: int, next: int, maxRetries: int)
    requires LoopFrom(o, head, tries, maxRetries)
    requires next == tries + StepRepairs(head)
    requires SharedCounterLoops(o, rest, next, maxRetries)
    ensures SharedCounterLoops(o, [head] + rest, tries, maxRetries)
  {
    assert ([head] + rest)[1..] == rest;
  }

  /** A step in front of a phase adds its repairs, and its fragment when it verified one. */
  lemma StepCons(head: FragmentStep, rest: seq<FragmentStep>)
    ensures FragmentRepairs([head] + rest) == StepRepairs(head) + FragmentRepairs(rest)
    ensures Verified([head] + rest) ==
      (if head.Looped? && head.attempt.passed then [(head.key, head.attempt.text)] else []) + Verified(rest)
  {
    assert ([head] + rest)[1..] == rest;
  }

  /**
   * Spelled out by index: step `i`, if it looped, ran the fragment loop with the
   * counter at `tries` plus the repairs of the steps before it.
   */
  lemma {:induction false} SharedCounterAt(o: Oracles, steps: seq<FragmentStep>, tries: int, maxRetries: int, i: nat)
    requires SharedCounterLoops(o, steps, tries, maxRetries)
    requires i < |steps|
    ensures LoopFrom(o, steps[i], tries + FragmentRepairs(steps[..i]), maxRetries)
    decreases i
  {
    if i == 0 {
      assert steps[..0] == [];
    } else {
      SharedCounterAt(o, steps[1..], tries + StepRepairs(steps[0]), maxRetries, i - 1);
      RepairsBeforeStep(steps[0], steps[1..], i);
      assert [steps[0]] + steps[1..] == steps;
      assert steps[1..][i - 1] == steps[i];
    }
  }

  /** The repairs made before step `i` of `[head] + rest` are those of `head` and of the first `i - 1` steps of `rest`. */
  lemma RepairsBeforeStep(head: FragmentStep, rest: seq<FragmentStep>, i: nat)
    requires 0 < i <= |rest| + 1
    ensures FragmentRepairs(([head] + rest)[..i]) == StepRepairs(head) + FragmentRepairs(rest[..i - 1])
  {
    var prefix := ([head] + rest)[..i];
    assert prefix[0] == head;
    assert prefix[1..] == rest[..i - 1];
  }

  /**
   * The fragment loop over the identified properties `entries`: ask the model for a
   * fragment; skip the property when the answer is exactly "None"; otherwise check
   * and repair it with the shared counter until it runs, raising once a failure
   * takes the counter past `maxRetries`.
   */
  function SynthesiseFragments(o: Oracles, entries: OMap<PropertyResult>, tries: int, maxRetries: int): (r: FragmentPhase)
    ensures SharedCounterLoops(o, r.steps, tries, maxRetries)
    ensures |r.steps| <= |entries|
    ensures r.completed ==> |r.steps| == |entries|
    ensures r.filterQuery == Verified(r.steps)
    ensures r.tries == tries + FragmentRepairs(r.steps)
    ensures r.completed ==> tries <= r.tries <= Max(tries, maxRetries)
    ensures !r.completed ==> r.tries == Max(tries, maxRetries) + 1
  {
    if |entries| == 0 then FragmentPhase([], [], tries, true)
    else
      var (key, value) := entries[0];
      var jqString := o.createJqString(key, value);
      if jqString == NoneSentinel then
        var r := SynthesiseFragments(o, entries[1..], tries, maxRetries);
        SharedCounterCons(o, Skipped(key), r.steps, tries, tries, maxRetries);
        StepCons(Skipped(key), r.steps);
        FragmentPhase([Skipped(key)] + r.steps, r.filterQuery, r.tries, r.completed)
      else
        var a := RepairFirst(FragmentChecker(o), o.repairQuery, jqString, tries, maxRetries + 1);
        if !a.passed then
          SharedCounterCons(o, Looped(key, jqString, a), [], tries, a.tries, maxRetries);
          StepCons(Looped(key, jqString, a), []);
          assert [Looped(key, jqString, a)] + [] == [Looped(key, jqString, a)];
          FragmentPhase([Looped(key, jqString, a)], [], a.tries, false)
        else
          var r := SynthesiseFragments(o, entries[1..], a.tries, maxRetries);
          var filterQuery := [(key, a.text)] + r.filterQuery;
          SharedCounterCons(o, Looped(key, jqString, a), r.steps, tries, a.tries, maxRetries);
          StepCons(Looped(key, jqString, a), r.steps);
          FragmentPhase([Looped(key, jqString, a)] + r.steps, filterQuery, r.tries, r.completed)
  }

  /** Step `i` of the fragment phase handles the `i`-th identified property, skipping it exactly when the model's fragment is "None". */
  lemma {:induction false} SynthesisStepsFor(o: Oracles, entries: OMap<PropertyResult>, tries: int, maxRetries: int)
    ensures var r := SynthesiseFragments(o, entries, tries, maxRetries);
      forall i :: 0 <= i < |r.steps| ==> StepFor(o, r.steps[i], entries[i])
    decreases |entries|
  {
    if |entries| > 0 {
      var key := entries[0].0;
      var jqString := o.createJqString(key, entries[0].1);
      var a := RepairFirst(FragmentChecker(o), o.repairQuery, jqString, tries, maxRetries + 1);
      var r := SynthesiseFragments(o, entries, tries, maxRetries);
      if jqString == NoneSentinel || a.passed {
        var next := if jqString == NoneSentinel then tries else a.tries;
        SynthesisStepsFor(o, entries[1..], next, maxRetries);
        var rest := SynthesiseFragments(o, entries[1..], next, maxRetries);
        var head := if jqString == NoneSentinel then Skipped(key) else Looped(key, jqString, a);
        assert r.steps == [head] + rest.steps;
        forall i | 0 < i < |r.steps|
          ensures StepFor(o, r.steps[i], entries[i])
        {
          assert r.steps[i] == rest.steps[i - 1] && entries[i] == entries[1..][i - 1];
        }
      } else {
        assert r.steps == [Looped(key, jqString, a)];
      }
    }
  }

  /**
   * A fragment phase that completes handled every identified property and every
   * step succeeded; one that does not stopped at a failing step after a run of
   * successful ones.
   */
  lemma {:induction false} SynthesisStepsSucceed(o: Oracles, entries: OMap<PropertyResult>, tries: int, maxRetries: int)
    ensures var r := SynthesiseFragments(o, entries, tries, maxRetries);
      && (r.completed ==> |r.steps| == |entries| && AllSucceeded(r.steps))
      && (!r.completed ==> StoppedAtFailure(r.steps))
    decreases |entries|
  {
    if |entries| > 0 {
      var key := entries[0].0;
      var jqString := o.createJqString(key, entries[0].1);
      var a := RepairFirst(FragmentChecker(o), o.repairQuery, jqString, tries, maxRetries + 1);
      var r := SynthesiseFragments(o, entries, tries, maxRetries);
      if jqString == NoneSentinel || a.passed {
        var next := if jqString == NoneSentinel then tries else a.tries;
        SynthesisStepsSucceed(o, entries[1..], next, maxRetries);
        var rest := SynthesiseFragments(o, entries[1..], next, maxRetries);
        var head := if jqString == NoneSentinel then Skipped(key) else Looped(key, jqString, a);
        assert r.steps == [head] + rest.steps && r.completed == rest.completed;
        PrependSucceeded(head, rest.steps);
      } else {
        assert r.steps == [Looped(key, jqString, a)];
        assert r.steps[..0] == [];
      }
    }
  }

  /**
   * A fragment loop tied to the shared counter passes exactly when one of the
   * candidates it may check, with the counter where the earlier steps left it, runs.
   */
  lemma SharedLoopSearch(o: Oracles, steps: seq<FragmentStep>, tries: int, maxRetries: int, i: nat)
    requires SharedCounterLoops(o, steps, tries, maxRetries)
    requires i < |steps| && steps[i].Looped?
    ensures var counter := tries + FragmentRepairs(steps[..i]);
      steps[i].attempt.passed <==>
        exists k :: 0 <= k < Budget(counter, maxRetries + 1) &&
          FragmentCheck(o, Candidate(FragmentChecker(o), o.repairQuery, steps[i].initial, k)) == Pass
  {
    var counter := tries + FragmentRepairs(steps[..i]);
    SharedCounterAt(o, steps, tries, maxRetries, i);
    assert steps[i].attempt == RepairFirst(FragmentChecker(o), o.repairQuery, steps[i].initial, counter, maxRetries + 1);
    RepairFirstTrace(FragmentChecker(o), o.repairQuery, steps[i].initial, counter, maxRetries + 1);
  }

  /** Everything one run did: its outcome and the calls made in each phase. */
  datatype Translation = Translation(
    outcome: Result<string, Failure>,
    analysis: Analysis,
    fragments: FragmentPhase,     // no steps when the run stopped after the analysis
    composite: Option<Attempt>,   // the composite loop, when the run reached it
    tries: int)                   // the shared counter at the end of the run

  /**
   * `translate_schema`: analyse the schema, synthesise a fragment per identified
   * property, assemble them and repair the composite filter until it validates.
   * It raises `SchemaUnsatisfiable` with the analysis exactly when the analysis
   * rejects the schema, and `RetriesExhausted` when a loop runs out of budget;
   * a filter it returns is the final text of a composite loop that passed, after
   * every fragment passed.
   */
  function TranslateSchema(o: Oracles, schema: OutputSchema, maxRetries: int): (t: Translation)
    ensures t.analysis == ValidateSchema(o, schema)
    ensures (t.outcome.Failure? && t.outcome.error.SchemaUnsatisfiable?) <==> !t.analysis.valid
    ensures t.outcome.Failure? ==>
      t.outcome.error == SchemaUnsatisfiable(t.analysis.results) || t.outcome.error == RetriesExhausted(maxRetries)
    ensures t.outcome.Success? ==>
      && t.analysis.valid && t.fragments.completed && AllSucceeded(t.fragments.steps)
      && t.composite.Some? && t.composite.value.passed && t.outcome.value == t.composite.value.text
    ensures t.analysis.valid ==> t.fragments == SynthesiseFragments(o, Select(t.analysis.results, IsIdentified), 0, maxRetries)
    ensures t.composite.Some? <==> t.analysis.valid && t.fragments.completed
    ensures t.composite.Some? ==>
      t.composite.value == TestFirst(CompositeChecker(o), o.repairQuery,
                                     DictToJqFilter(t.fragments.filterQuery), t.fragments.tries, maxRetries + 1)
    ensures t.composite.Some? ==>
      (t.outcome.Success? <==>
        exists k :: 0 <= k < Budget(t.fragments.tries, maxRetries + 1) &&
          CompositeCheck(o, Candidate(CompositeChecker(o), o.repairQuery, DictToJqFilter(t.fragments.filterQuery), k)) == Pass)
  {
    var analysis := ValidateSchema(o, schema);
    if !analysis.valid then
      Translation(Failure(SchemaUnsatisfiable(analysis.results)), analysis, FragmentPhase([], [], 0, true), None, 0)
    else
      var identified := Select(analysis.results, IsIdentified);
      var fragments := SynthesiseFragments(o, identified, 0, maxRetries);
      if !fragments.completed then
        Translation(Failure(RetriesExhausted(maxRetries)), analysis, fragments, None, fragments.tries)
      else
        SynthesisStepsSucceed(o, identified, 0, maxRetries);
        var composite := TestFirst(CompositeChecker(o), o.repairQuery,
                                   DictToJqFilter(fragments.filterQuery), fragments.tries, maxRetries + 1);
        TestFirstTrace(CompositeChecker(o), o.repairQuery,
                       DictToJqFilter(fragments.filterQuery), fragments.tries, maxRetries + 1);
        var outcome := if composite.passed then Success(composite.text) else Failure(RetriesExhausted(maxRetries));
        Translation(outcome, analysis, fragments, Some(composite), composite.tries)
  }

  /** Total calls of the repair oracle in a run. */
  function RepairCalls(t: Translation): nat
  {
    FragmentRepairs(t.fragments.steps) + (if t.composite.Some? then t.composite.value.repairs else 0)
  }

  /** Total failed checks in a run: every one of them added one to `tries`. */
  function FailedChecks(t: Translation): nat
  {
    FragmentRepairs(t.fragments.steps) +
    (if t.composite.None? then 0
     else if t.composite.value.passed then t.composite.value.repairs
     else t.composite.value.checks)
  }

  /**
   * The run stops with `SchemaUnsatisfiable` exactly when some required property
   * got no key from the model, and then it has asked for no fragment and compiled
   * and repaired nothing.
   */
  lemma UnsatisfiableStopsBeforeSynthesis(o: Oracles, schema: OutputSchema, maxRetries: int)
    ensures var t := TranslateSchema(o, schema, maxRetries);
      (t.outcome.Failure? && t.outcome.error.SchemaUnsatisfiable?) <==>
      exists i :: 0 <= i < |schema.properties| && schema.properties[i].0 in schema.required &&
        o.identifyKey(schema.properties[i].0, schema.properties[i].1).key == None
    ensures var t := TranslateSchema(o, schema, maxRetries);
      t.outcome.Failure? && t.outcome.error.SchemaUnsatisfiable? ==>
        |t.fragments.steps| == 0 && t.composite == None && RepairCalls(t) == 0
  {
    UnsatisfiableByProperty(o, schema);
  }

  /** The analysis has one record per property, so its keys are distinct when the schema's are. */
  lemma AnalysisKeysDistinct(o: Oracles, schema: OutputSchema)
    requires WellFormed(schema)
    ensures DistinctKeys(ValidateSchema(o, schema).results)
  {
    var an := ValidateSchema(o, schema);
    forall i, j | 0 <= i < j < |an.results|
      ensures an.results[i].0 != an.results[j].0
    {
      assert Keys(an.results)[i] == Keys(schema.properties)[i];
      assert Keys(an.results)[j] == Keys(schema.properties)[j];
    }
  }

  /**
   * Only identified properties reach fragment synthesis, in order: step `i`
   * handles the `i`-th identified property, and when the phase completes every
   * identified property has had its step.
   */
  lemma OnlyIdentifiedAreSynthesised(o: Oracles, schema: OutputSchema, maxRetries: int)
    ensures var t := TranslateSchema(o, schema, maxRetries);
      var identified := Select(t.analysis.results, IsIdentified);
      && |t.fragments.steps| <= |identified|
      && (forall i :: 0 <= i < |t.fragments.steps| ==> t.fragments.steps[i].key == identified[i].0)
      && (t.analysis.valid && t.fragments.completed ==> |t.fragments.steps| == |identified|)
  {
    var t := TranslateSchema(o, schema, maxRetries);
    var an := ValidateSchema(o, schema);
    var identified := Select(an.results, IsIdentified);
    if an.valid {
      SynthesisStepsFor(o, identified, 0, maxRetries);
      SynthesisStepsSucceed(o, identified, 0, maxRetries);
      forall i | 0 <= i < |t.fragments.steps|
        ensures t.fragments.steps[i].key == identified[i].0
      {
        assert StepFor(o, t.fragments.steps[i], identified[i]);
      }
    }
  }

  /** Every step of the fragment phase is for a schema property the model named an input key for. */
  lemma SynthesisedPropertiesHaveKeys(o: Oracles, schema: OutputSchema, maxRetries: int)
    ensures var t := TranslateSchema(o, schema, maxRetries);
      forall i :: 0 <= i < |t.fragments.steps| ==>
        (exists j :: 0 <= j < |schema.properties| && schema.properties[j].0 == t.fragments.steps[i].key &&
          o.identifyKey(schema.properties[j].0, schema.properties[j].1).key.Some?)
  {
    var t := TranslateSchema(o, schema, maxRetries);
    var identified := Select(t.analysis.results, IsIdentified);
    OnlyIdentifiedAreSynthesised(o, schema, maxRetries);
    IdentifiedHaveKeys(o, schema);
    forall i | 0 <= i < |t.fragments.steps|
      ensures exists j :: 0 <= j < |schema.properties| && schema.properties[j].0 == t.fragments.steps[i].key &&
                          o.identifyKey(schema.properties[j].0, schema.properties[j].1).key.Some?
    {
      assert t.fragments.steps[i].key == identified[i].0;
    }
  }

  /** Every identified record is that of a schema property for which the model named a key. */
  lemma IdentifiedHaveKeys(o: Oracles, schema: OutputSchema)
    ensures var identified := Select(ValidateSchema(o, schema).results, IsIdentified);
      forall i :: 0 <= i < |identified| ==>
        (exists j :: 0 <= j < |schema.properties| && schema.properties[j].0 == identified[i].0 &&
           o.identifyKey(schema.properties[j].0, schema.properties[j].1).key.Some?)
  {
    var an := ValidateSchema(o, schema);
    var identified := Select(an.results, IsIdentified);
    forall i | 0 <= i < |identified|
      ensures exists j :: 0 <= j < |schema.properties| && schema.properties[j].0 == identified[i].0 &&
                          o.identifyKey(schema.properties[j].0, schema.properties[j].1).key.Some?
    {
      assert identified[i] in an.results;
      var j :| 0 <= j < |an.results| && an.results[j] == identified[i];
      assert Keys(an.results)[j] == Keys(schema.properties)[j];
    }
  }

  /**
   * A fragment the model answered with exactly "None" is never compiled: its
   * property is skipped without entering the repair loop, every loop starts from an
   * answer other than "None", and a skipped property has no entry in the
   * assembled filter.
   */
  lemma NoneFragmentsAreDropped(o: Oracles, schema: OutputSchema, maxRetries: int)
    requires WellFormed(schema)
    ensures var t := TranslateSchema(o, schema, maxRetries);
      var identified := Select(t.analysis.results, IsIdentified);
      forall i :: 0 <= i < |t.fragments.steps| ==>
        && (t.fragments.steps[i].Skipped? <==>
              o.createJqString(identified[i].0, identified[i].1) == NoneSentinel)
        && (t.fragments.steps[i].Looped? ==> t.fragments.steps[i].initial != NoneSentinel)
        && (t.fragments.steps[i].Skipped? ==> t.fragments.steps[i].key !in Keys(t.fragments.filterQuery))
  {
    var t := TranslateSchema(o, schema, maxRetries);
    var an := ValidateSchema(o, schema);
    var identified := Select(an.results, IsIdentified);
    var steps := t.fragments.steps;
    if an.valid {
      SynthesisStepsFor(o, identified, 0, maxRetries);
      AnalysisKeysDistinct(o, schema);
      SelectKeepsDistinct(an.results, IsIdentified);
      forall i, j | 0 <= i < j < |steps|
        ensures steps[i].key != steps[j].key
      {
        assert StepFor(o, steps[i], identified[i]) && StepFor(o, steps[j], identified[j]);
      }
      SkippedAreNotKept(steps);
    }
  }

  /**
   * One counter serves the whole run: a run that returns has met at most
   * `max(0, max_retries)` failed checks in all its loops together, a run that
   * raises `RetriesExhausted` met exactly one more, and either way the repair
   * oracle was called at most `max(0, max_retries) + 1` times.
   */
  lemma SharedRetryBudget(o: Oracles, schema: OutputSchema, maxRetries: int)
    ensures var t := TranslateSchema(o, schema, maxRetries);
      && t.tries == FailedChecks(t)
      && (t.outcome.Success? ==> FailedChecks(t) <= Max(0, maxRetries))
      && (t.outcome == Failure(RetriesExhausted(maxRetries)) ==> FailedChecks(t) == Max(0, maxRetries) + 1)
      && RepairCalls(t) <= Max(0, maxRetries) + 1
  {
  }

  /**
   * A run that returns a filter returns one that compiled, ran on the input, and
   * whose first result passed schema validation; the composite loop started from
   * the assembled fragments and only repaired what failed.
   */
  lemma ReturnedFilterIsValidated(o: Oracles, schema: OutputSchema, maxRetries: int)
    ensures var t := TranslateSchema(o, schema, maxRetries);
      t.outcome.Success? ==>
        && CompositeAccepted(o, t.outcome.value)
        && t.composite.Some?
        && t.outcome.value == Candidate(CompositeChecker(o), o.repairQuery,
             DictToJqFilter(t.fragments.filterQuery), t.composite.value.repairs)
  {
    var t := TranslateSchema(o, schema, maxRetries);
    if t.outcome.Success? {
      var fq := t.fragments.filterQuery;
      TestFirstTrace(CompositeChecker(o), o.repairQuery, DictToJqFilter(fq), t.fragments.tries, maxRetries + 1);
      assert CompositeCheck(o, t.outcome.value) == Pass;
    }
  }

  /**
   * The assembled filter lists the kept fragments in the schema's declaration
   * order: its keys are the property names with some left out and none reordered.
   */
  lemma FilterFollowsDeclarationOrder(o: Oracles, schema: OutputSchema, maxRetries: int)
    ensures var t := TranslateSchema(o, schema, maxRetries);
      IsSubsequence(Keys(t.fragments.filterQuery), Keys(schema.properties))
  {
    var t := TranslateSchema(o, schema, maxRetries);
    var an := ValidateSchema(o, schema);
    var identified := Select(an.results, IsIdentified);
    if an.valid {
      SynthesisStepsFor(o, identified, 0, maxRetries);
      VerifiedKeysInOrder(t.fragments.steps, Keys(identified));
      SubsequenceTransitive(Keys(t.fragments.filterQuery), Keys(identified), Keys(an.results));
    }
  }

  /** A fragment phase with something to verify cannot complete when the jq engine rejects every query. */
  lemma RejectedFragmentsNeverComplete(o: Oracles, entries: OMap<PropertyResult>, tries: int, maxRetries: int)
    requires forall q :: o.compileRun(q).RunFailed?
    requires HasFragmentToVerify(o, entries)
    ensures !SynthesiseFragments(o, entries, tries, maxRetries).completed
  {
    SynthesisStepsFor(o, entries, tries, maxRetries);
    SynthesisStepsSucceed(o, entries, tries, maxRetries);
    var r := SynthesiseFragments(o, entries, tries, maxRetries);
    var i :| 0 <= i < |entries| && o.createJqString(entries[i].0, entries[i].1) != NoneSentinel;
    if r.completed {
      var step := r.steps[i];
      assert StepFor(o, step, entries[i]);
      assert step.Looped?;
      assert StepSucceeded(r.steps[i]);
      assert FragmentCheck(o, step.attempt.text) == Pass;
      FragmentCheckPasses(o, step.attempt.text);
      assert false;
    }
  }

  /**
   * If the jq engine rejects every query, a satisfiable schema with at least one
   * fragment to verify ends in `RetriesExhausted` before the composite loop, with
   * the repair oracle called exactly `max(0, max_retries) + 1` times.
   */
  lemma AlwaysFailingFragments(o: Oracles, schema: OutputSchema, maxRetries: int)
    requires forall q :: o.compileRun(q).RunFailed?
    requires ValidateSchema(o, schema).valid
    requires HasFragmentToVerify(o, Select(ValidateSchema(o, schema).results, IsIdentified))
    ensures var t := TranslateSchema(o, schema, maxRetries);
      && t.outcome == Failure(RetriesExhausted(maxRetries))
      && t.composite == None
      && RepairCalls(t) == Max(0, maxRetries) + 1
  {
    RejectedFragmentsNeverComplete(o, Select(ValidateSchema(o, schema).results, IsIdentified), 0, maxRetries);
  }
}
