/**
 * The straight Burr port (jaiqu/jaiqu_burr_straight_port.py; jaiqu/jaiqu_burr.py
 * holds the same three actions line for line): `translate_schema` split into
 * three actions that each do their whole phase at once, with a retry counter that
 * starts at zero in every loop and the bound `tries >= max_retries`, wired by a
 * transition table over the flags the actions write.
 */
module StraightPort {
  import opened Wrappers
  import opened OrderedMaps
  import opened Types
  import opened Helpers
  import opened RepairLoops
  import opened SchemaValidation
  import opened Fragments
  import opened Burr

  /** The application state: its inputs, and the fields the actions write (`None` until written). */
  datatype PortState = PortState(
    schema: OutputSchema,
    maxRetries: int,
    schemaProperties: OMap<PropertyResult>,
    validSchema: Option<bool>,
    jqFilter: Option<string>,
    maxRetriesHit: Option<bool>,
    validJson: Option<bool>,
    completeFilter: Option<string>)

  /** The state `build_application` starts from. */
  function InitialState(schema: OutputSchema, maxRetries: int): PortState
  {
    PortState(schema, maxRetries, [], None, None, None, None, None)
  }

  // --------------------------------------------------------- validate_schema

  /**
   * `validate_schema`: one record per schema property, in declaration order,
   * holding the model's key, its reasoning, the descriptor and whether the
   * property is required, and the verdict, false exactly when a required
   * property found no key; it writes
   * `schema_properties` and `valid_schema` and nothing else.
   */
  function ValidateSchemaStep(o: Oracles, s: PortState): (r: Step<PortState>)
    ensures r.state == s.(schemaProperties := r.state.schemaProperties, validSchema := r.state.validSchema)
    ensures r.output == Records(r.state.schemaProperties) && r.checks == 0 && r.repairs == 0
    ensures Keys(r.state.schemaProperties) == Keys(s.schema.properties)
    ensures forall i :: 0 <= i < |r.state.schemaProperties| ==>
      var (name, descriptor) := s.schema.properties[i];
      var answer := o.identifyKey(name, descriptor);
      && r.state.schemaProperties[i].1.identified == answer.key.Some?
      && r.state.schemaProperties[i].1.key == answer.key
      && r.state.schemaProperties[i].1.message == answer.reasoning
      && r.state.schemaProperties[i].1.descriptor == descriptor
      && r.state.schemaProperties[i].1.required == (name in s.schema.required)
    ensures r.state.validSchema.Some?
    ensures r.state.validSchema == Some(false) <==>
      exists i :: 0 <= i < |s.schema.properties| && s.schema.properties[i].0 in s.schema.required &&
        o.identifyKey(s.schema.properties[i].0, s.schema.properties[i].1).key == None
  {
    var an := ValidateSchema(o, s.schema);
    UnsatisfiableByProperty(o, s.schema);
    Step(Records(an.results), s.(schemaProperties := an.results, validSchema := Some(an.valid)), 0, 0)
  }

  // -------------------------------------------------- create_jq_filter_query

  /** The fragment phase of `create_jq_filter_query`: one step per property handled, the fragments kept, and whether none failed. */
  datatype PortPhase = PortPhase(steps: seq<FragmentStep>, filterQuery: OMap<string>, completed: bool)

  /**
   * The loop over the identified properties `entries`: skip a property whose
   * fragment is exactly "None"; otherwise check and repair the fragment with a
   * counter that starts at zero, returning at the first property whose counter
   * reaches `maxRetries`.
   */
  function CollectFragments(o: Oracles, entries: OMap<PropertyResult>, maxRetries: int): (p: PortPhase)
    ensures |p.steps| <= |entries|
    ensures p.completed ==> |p.steps| == |entries|
    ensures p.filterQuery == Verified(p.steps)
  {
    if |entries| == 0 then PortPhase([], [], true)
    else
      var (key, value) := entries[0];
      var jqString := o.createJqString(key, value);
      if jqString == NoneSentinel then
        var p := CollectFragments(o, entries[1..], maxRetries);
        assert ([Skipped(key)] + p.steps)[1..] == p.steps;
        p.(steps := [Skipped(key)] + p.steps)
      else
        var a := RepairFirst(FragmentChecker(o), o.repairQuery, jqString, 0, maxRetries);
        if !a.passed then
          PortPhase([Looped(key, jqString, a)], [], false)
        else
          var p := CollectFragments(o, entries[1..], maxRetries);
          var filterQuery := [(key, a.text)] + p.filterQuery;
          assert ([Looped(key, jqString, a)] + p.steps)[1..] == p.steps;
          PortPhase([Looped(key, jqString, a)] + p.steps, filterQuery, p.completed)
  }

  /** Step `i` handles the `i`-th identified property, skipping it exactly when the model's fragment is "None". */
  lemma {:induction false} CollectStepsFor(o: Oracles, entries: OMap<PropertyResult>, maxRetries: int)
    ensures var p := CollectFragments(o, entries, maxRetries);
      forall i :: 0 <= i < |p.steps| ==> StepFor(o, p.steps[i], entries[i])
    decreases |entries|
  {
    if |entries| > 0 {
      var key := entries[0].0;
      var jqString := o.createJqString(key, entries[0].1);
      var a := RepairFirst(FragmentChecker(o), o.repairQuery, jqString, 0, maxRetries);
      var p := CollectFragments(o, entries, maxRetries);
      if jqString == NoneSentinel || a.passed {
        CollectStepsFor(o, entries[1..], maxRetries);
        var rest := CollectFragments(o, entries[1..], maxRetries);
        var head := if jqString == NoneSentinel then Skipped(key) else Looped(key, jqString, a);
        assert p.steps == [head] + rest.steps;
        forall i | 0 < i < |p.steps|
          ensures StepFor(o, p.steps[i], entries[i])
        {
          assert p.steps[i] == rest.steps[i - 1] && entries[i] == entries[1..][i - 1];
        }
      } else {
        assert p.steps == [Looped(key, jqString, a)];
      }
    }
  }

  /**
   * A phase that completes handled every property and every step succeeded; a
   * phase that does not stopped at a failing step after a run of successful ones.
   */
  lemma {:induction false} CollectStepsSucceed(o: Oracles, entries: OMap<PropertyResult>, maxRetries: int)
    ensures var p := CollectFragments(o, entries, maxRetries);
      && (p.completed ==> |p.steps| == |entries| && AllSucceeded(p.steps))
      && (!p.completed ==> StoppedAtFailure(p.steps))
    decreases |entries|
  {
    if |entries| > 0 {
      var key := entries[0].0;
      var jqString := o.createJqString(key, entries[0].1);
      var a := RepairFirst(FragmentChecker(o), o.repairQuery, jqString, 0, maxRetries);
      var p := CollectFragments(o, entries, maxRetries);
      if jqString == NoneSentinel || a.passed {
        CollectStepsSucceed(o, entries[1..], maxRetries);
        var rest := CollectFragments(o, entries[1..], maxRetries);
        var head := if jqString == NoneSentinel then Skipped(key) else Looped(key, jqString, a);
        assert p.steps == [head] + rest.steps && p.completed == rest.completed;
        PrependSucceeded(head, rest.steps);
      } else {
        assert p.steps == [Looped(key, jqString, a)];
        assert p.steps[..0] == [];
      }
    }
  }

  /** A phase that does not complete stopped at the property its last step handled, and that step failed. */
  lemma CollectStopsAtFailure(o: Oracles, entries: OMap<PropertyResult>, maxRetries: int)
    ensures var p := CollectFragments(o, entries, maxRetries);
      !p.completed ==>
        && StoppedAtFailure(p.steps)
        && StepFor(o, p.steps[|p.steps| - 1], entries[|p.steps| - 1])
  {
    CollectStepsFor(o, entries, maxRetries);
    CollectStepsSucceed(o, entries, maxRetries);
  }

  /** A step that looped ran the fragment loop from its initial fragment with the counter at zero. */
  predicate FreshLoop(o: Oracles, step: FragmentStep, maxRetries: int)
  {
    step.Looped? ==> step.attempt == RepairFirst(FragmentChecker(o), o.repairQuery, step.initial, 0, maxRetries)
  }

  /** Every property's loop starts afresh: its counter begins at zero, whatever earlier properties cost. */
  lemma {:induction false} CollectFreshCounters(o: Oracles, entries: OMap<PropertyResult>, maxRetries: int)
    ensures forall step :: step in CollectFragments(o, entries, maxRetries).steps ==> FreshLoop(o, step, maxRetries)
    decreases |entries|
  {
    if |entries| > 0 {
      var key := entries[0].0;
      var jqString := o.createJqString(key, entries[0].1);
      var a := RepairFirst(FragmentChecker(o), o.repairQuery, jqString, 0, maxRetries);
      var p := CollectFragments(o, entries, maxRetries);
      if jqString == NoneSentinel || a.passed {
        CollectFreshCounters(o, entries[1..], maxRetries);
        var rest := CollectFragments(o, entries[1..], maxRetries);
        var head := if jqString == NoneSentinel then Skipped(key) else Looped(key, jqString, a);
        assert p.steps == [head] + rest.steps;
        assert FreshLoop(o, head, maxRetries);
      } else {
        assert p.steps == [Looped(key, jqString, a)];
      }
    }
  }

  /**
   * `create_jq_filter_query`: synthesise and verify the fragments of the
   * identified properties; on success write the assembled filter and
   * `max_retries_hit=False`, otherwise return the error for the property that
   * failed and write `max_retries_hit=True` and `jq_filter=None`. Nothing else changes.
   */
  function CreateJqFilterQueryStep(o: Oracles, s: PortState): (r: Step<PortState>)
    ensures r.state == s.(jqFilter := r.state.jqFilter, maxRetriesHit := r.state.maxRetriesHit)
    ensures r.state.maxRetriesHit.Some?
    ensures r.state.maxRetriesHit == Some(false) ==> r.state.jqFilter.Some? && r.output == Filter(r.state.jqFilter.value)
    ensures r.state.maxRetriesHit == Some(true) ==>
      && r.state.jqFilter == None
      && r.output.FragmentError? && r.output.maxRetries == s.maxRetries
      && r.output.key in Keys(Select(s.schemaProperties, IsIdentified))
    ensures var p := CollectFragments(o, Select(s.schemaProperties, IsIdentified), s.maxRetries);
      && r.checks == FragmentChecks(p.steps) && r.repairs == FragmentRepairs(p.steps)
      && (r.state.maxRetriesHit == Some(false) <==> p.completed)
      && (p.completed ==> r.state.jqFilter == Some(DictToJqFilter(p.filterQuery)))
    ensures var identified := Select(s.schemaProperties, IsIdentified);
      var p := CollectFragments(o, identified, s.maxRetries);
      !p.completed ==>
        && StoppedAtFailure(p.steps)
        && StepFor(o, p.steps[|p.steps| - 1], identified[|p.steps| - 1])
        && r.output == FragmentError(identified[|p.steps| - 1].0, s.maxRetries)
  {
    var identified := Select(s.schemaProperties, IsIdentified);
    var p := CollectFragments(o, identified, s.maxRetries);
    var checks := FragmentChecks(p.steps);
    var repairs := FragmentRepairs(p.steps);
    if p.completed then
      var filter := DictToJqFilter(p.filterQuery);
      Step(Filter(filter), s.(jqFilter := Some(filter), maxRetriesHit := Some(false)), checks, repairs)
    else
      var last := |p.steps| - 1;
      CollectStopsAtFailure(o, identified, s.maxRetries);
      assert p.steps[last].key == identified[last].0 == Keys(identified)[last];
      Step(FragmentError(p.steps[last].key, s.maxRetries), s.(maxRetriesHit := Some(true), jqFilter := None), checks, repairs)
  }

  /** The fragments `create_jq_filter_query` keeps, by property, in the order it verified them. */
  function CreatedFragments(o: Oracles, s: PortState): OMap<string>
  {
    CollectFragments(o, Select(s.schemaProperties, IsIdentified), s.maxRetries).filterQuery
  }

  /**
   * In a completed phase over properties with distinct names, a property is kept
   * exactly when its fragment is not "None".
   */
  lemma KeptExactlyWhenNotNone(o: Oracles, entries: OMap<PropertyResult>, maxRetries: int, i: nat)
    requires DistinctKeys(entries) && i < |entries|
    requires CollectFragments(o, entries, maxRetries).completed
    ensures entries[i].0 in Keys(CollectFragments(o, entries, maxRetries).filterQuery) <==>
      o.createJqString(entries[i].0, entries[i].1) != NoneSentinel
  {
    var p := CollectFragments(o, entries, maxRetries);
    var fq := p.filterQuery;
    CollectStepsFor(o, entries, maxRetries);
    CollectStepsSucceed(o, entries, maxRetries);
    assert StepFor(o, p.steps[i], entries[i]);
    if o.createJqString(entries[i].0, entries[i].1) != NoneSentinel {
      assert StepSucceeded(p.steps[i]);
      VerifiedHasLooped(p.steps, i);
      var j :| 0 <= j < |fq| && fq[j] == (entries[i].0, p.steps[i].attempt.text);
      assert Keys(fq)[j] == entries[i].0;
    } else if entries[i].0 in Keys(fq) {
      VerifiedKeys(p.steps, entries[i].0);
      assert false;
    }
  }

  /**
   * On success the filter is `dict_to_jq_filter` of the kept fragments, whose
   * keys are identified properties in declaration order; with distinct property
   * names, an identified property is kept exactly when its fragment is not
   * "None", and every kept fragment ran on the input.
   */
  lemma CreatedFilterHoldsVerifiedFragments(o: Oracles, s: PortState)
    requires DistinctKeys(s.schemaProperties)
    ensures var r := CreateJqFilterQueryStep(o, s);
      var identified := Select(s.schemaProperties, IsIdentified);
      var fq := CreatedFragments(o, s);
      r.state.maxRetriesHit == Some(false) ==>
        && r.state.jqFilter == Some(DictToJqFilter(fq))
        && IsSubsequence(Keys(fq), Keys(identified))
        && (forall i :: 0 <= i < |identified| ==>
              (identified[i].0 in Keys(fq) <==> o.createJqString(identified[i].0, identified[i].1) != NoneSentinel))
        && (forall j :: 0 <= j < |fq| ==> FragmentCheck(o, fq[j].1) == Pass)
  {
    var identified := Select(s.schemaProperties, IsIdentified);
    var p := CollectFragments(o, identified, s.maxRetries);
    if p.completed {
      SelectKeepsDistinct(s.schemaProperties, IsIdentified);
      forall i | 0 <= i < |identified|
        ensures identified[i].0 in Keys(p.filterQuery) <==> o.createJqString(identified[i].0, identified[i].1) != NoneSentinel
      {
        KeptExactlyWhenNotNone(o, identified, s.maxRetries, i);
      }
      CollectStepsFor(o, identified, s.maxRetries);
      CollectStepsSucceed(o, identified, s.maxRetries);
      VerifiedKeysInOrder(p.steps, Keys(identified));
      VerifiedPass(o, p.steps);
    }
  }

  /** Every fragment the steps kept passed the fragment check. */
  lemma {:induction false} VerifiedPass(o: Oracles, steps: seq<FragmentStep>)
    requires forall i :: 0 <= i < |steps| && steps[i].Looped? && steps[i].attempt.passed ==>
      FragmentCheck(o, steps[i].attempt.text) == Pass
    ensures forall j :: 0 <= j < |Verified(steps)| ==> FragmentCheck(o, Verified(steps)[j].1) == Pass
  {
    if |steps| > 0 {
      VerifiedPass(o, steps[1..]);
      assert forall i :: 1 <= i < |steps| ==> steps[i] == steps[1..][i - 1];
    }
  }

  /**
   * If the jq engine rejects every query, the fragment phase stops at the first
   * property whose fragment is not "None", after skipping every property before
   * it, with exactly `max(1, maxRetries)` checks and repairs, all on that property.
   */
  lemma {:induction false} RejectedPhase(o: Oracles, entries: OMap<PropertyResult>, maxRetries: int, i: nat)
    requires forall q :: o.compileRun(q).RunFailed?
    requires i < |entries| && o.createJqString(entries[i].0, entries[i].1) != NoneSentinel
    requires forall j :: 0 <= j < i ==> o.createJqString(entries[j].0, entries[j].1) == NoneSentinel
    ensures var p := CollectFragments(o, entries, maxRetries);
      && !p.completed
      && |p.steps| == i + 1
      && p.steps[i].key == entries[i].0
      && FragmentRepairs(p.steps) == FragmentChecks(p.steps) == Max(1, maxRetries)
  {
    var p := CollectFragments(o, entries, maxRetries);
    var key := entries[0].0;
    var jqString := o.createJqString(key, entries[0].1);
    if i == 0 {
      var a := RepairFirst(FragmentChecker(o), o.repairQuery, jqString, 0, maxRetries);
      if a.passed {
        FragmentCheckPasses(o, a.text);
        assert false;
      }
      assert p.steps == [Looped(key, jqString, a)];
    } else {
      var k: nat := i - 1;
      var tail := entries[1..];
      assert forall j :: 0 <= j < k ==> tail[j] == entries[j + 1];
      RejectedPhase(o, tail, maxRetries, k);
      var rest := CollectFragments(o, tail, maxRetries);
      assert p.steps == [Skipped(key)] + rest.steps;
      assert p.steps[1..] == rest.steps;
    }
  }

  /**
   * If the jq engine rejects every query, `create_jq_filter_query` fails at the
   * first identified property whose fragment is not "None": the error names that
   * property, and the check and the repair oracle were each called exactly
   * `max(1, max_retries)` times, all of them on that property.
   */
  lemma AlwaysFailingFragmentsName(o: Oracles, s: PortState, i: nat)
    requires forall q :: o.compileRun(q).RunFailed?
    requires i < |Select(s.schemaProperties, IsIdentified)|
    requires var identified := Select(s.schemaProperties, IsIdentified);
      && o.createJqString(identified[i].0, identified[i].1) != NoneSentinel
      && (forall j :: 0 <= j < i ==> o.createJqString(identified[j].0, identified[j].1) == NoneSentinel)
    ensures var r := CreateJqFilterQueryStep(o, s);
      && r.output == FragmentError(Select(s.schemaProperties, IsIdentified)[i].0, s.maxRetries)
      && r.state.maxRetriesHit == Some(true)
      && r.repairs == r.checks == Max(1, s.maxRetries)
  {
    RejectedPhase(o, Select(s.schemaProperties, IsIdentified), s.maxRetries, i);
  }

  // ----------------------------------------------------------- validate_json

  /**
   * `validate_json`: run the filter, validate its first result against the
   * schema, and repair it on failure, with a counter starting at zero; give up
   * once the counter reaches `max_retries`. It writes `valid_json`,
   * `max_retries_hit` and `complete_filter`, and nothing else.
   */
  function ValidateJsonStep(o: Oracles, s: PortState): (r: Step<PortState>)
    requires s.jqFilter.Some?
    ensures r.state == s.(validJson := r.state.validJson, maxRetriesHit := r.state.maxRetriesHit,
                          completeFilter := r.state.completeFilter)
    ensures r.state.validJson.Some? && r.state.completeFilter.Some?
    ensures r.state.maxRetriesHit == Some(!r.state.validJson.value)
    ensures r.repairs + 1 == r.checks <= Max(1, s.maxRetries)
    ensures r.state.validJson == Some(true) ==>
      r.output == CompleteFilter(r.state.completeFilter.value) && CompositeAccepted(o, r.state.completeFilter.value)
    ensures r.state.validJson == Some(false) ==>
      && r.output == ValidationError(s.maxRetries)
      && r.checks == Max(1, s.maxRetries)
      && CompositeCheck(o, r.state.completeFilter.value).Fail?
  {
    var a := TestFirst(CompositeChecker(o), o.repairQuery, s.jqFilter.value, 0, s.maxRetries);
    CompositeCheckPasses(o, a.text);
    if a.passed then
      Step(CompleteFilter(a.text),
           s.(completeFilter := Some(a.text), maxRetriesHit := Some(false), validJson := Some(true)), a.checks, a.repairs)
    else
      Step(ValidationError(s.maxRetries),
           s.(maxRetriesHit := Some(true), validJson := Some(false), completeFilter := Some(a.text)), a.checks, a.repairs)
  }

  /**
   * `valid_json` is true exactly when one of the first `max(1, max_retries)`
   * candidates (the filter, then its successive repairs) is accepted, and the
   * action keeps the candidate it stopped at.
   */
  lemma ValidateJsonSearch(o: Oracles, s: PortState)
    requires s.jqFilter.Some?
    ensures var r := ValidateJsonStep(o, s);
      && r.state.completeFilter.value == Candidate(CompositeChecker(o), o.repairQuery, s.jqFilter.value, r.repairs)
      && (forall j :: 0 <= j < r.repairs ==>
            CompositeCheck(o, Candidate(CompositeChecker(o), o.repairQuery, s.jqFilter.value, j)).Fail?)
      && (r.state.validJson == Some(true) <==>
            exists k :: 0 <= k < Max(1, s.maxRetries) &&
              CompositeCheck(o, Candidate(CompositeChecker(o), o.repairQuery, s.jqFilter.value, k)) == Pass)
  {
    TestFirstTrace(CompositeChecker(o), o.repairQuery, s.jqFilter.value, 0, s.maxRetries);
  }

  // ------------------------------------------------------------ transitions

  /** The transition table of `build_application`, row for row. */
  const StraightTable: seq<Transition> := [
    Transition(ValidateSchemaAction, CreateJqFilterQueryAction, Default),
    Transition(CreateJqFilterQueryAction, ValidateJsonAction, When(MaxRetriesHit, false)),
    Transition(CreateJqFilterQueryAction, ErrorState, When(MaxRetriesHit, true)),
    Transition(ValidateJsonAction, GoodResult, When(ValidJson, true)),
    Transition(ValidateJsonAction, ErrorState, When(ValidJson, false)),
    Transition(ValidateSchemaAction, GoodResult, When(ValidSchema, true)),
    Transition(ValidateSchemaAction, ErrorState, When(ValidSchema, false))
  ]

  /** The boolean fields of the state the table's conditions read. */
  function StraightFlags(s: PortState): Flags
  {
    Flags(s.validSchema, None, None, s.maxRetriesHit, s.validJson)
  }

  // The rows leaving each action: which targets the table offers for which flags.

  /** `validate_schema` always offers `create_jq_filter_query`, and `good_result` or `error_state` by `valid_schema`. */
  lemma SchemaRoutes(flags: Flags)
    ensures var ts := Targets(StraightTable, ValidateSchemaAction, flags);
      && CreateJqFilterQueryAction in ts
      && (GoodResult in ts <==> flags.validSchema == Some(true))
      && (ErrorState in ts <==> flags.validSchema == Some(false))
      && (forall a :: a in ts ==> a == CreateJqFilterQueryAction || a == GoodResult || a == ErrorState)
  {
    var t := StraightTable;
    assert t[0].from == t[5].from == t[6].from == ValidateSchemaAction;
  }

  /** `create_jq_filter_query` goes on to `validate_json` or `error_state` by `max_retries_hit`. */
  lemma CreateRoutes(flags: Flags)
    ensures var ts := Targets(StraightTable, CreateJqFilterQueryAction, flags);
      && (ValidateJsonAction in ts <==> flags.maxRetriesHit == Some(false))
      && (ErrorState in ts <==> flags.maxRetriesHit == Some(true))
      && (forall a :: a in ts ==> a == ValidateJsonAction || a == ErrorState)
  {
    var t := StraightTable;
    assert t[1].from == t[2].from == CreateJqFilterQueryAction;
  }

  /** `validate_json` goes on to `good_result` or `error_state` by `valid_json`. */
  lemma ValidateJsonRoutes(flags: Flags)
    ensures var ts := Targets(StraightTable, ValidateJsonAction, flags);
      && (GoodResult in ts <==> flags.validJson == Some(true))
      && (ErrorState in ts <==> flags.validJson == Some(false))
      && (forall a :: a in ts ==> a == GoodResult || a == ErrorState)
  {
    var t := StraightTable;
    assert t[3].from == t[4].from == ValidateJsonAction;
  }

  /**
   * After `validate_schema` the table offers `create_jq_filter_query` in every
   * case, next to `good_result` when the schema is satisfiable and `error_state`
   * when it is not.
   */
  lemma SchemaStepRouting(o: Oracles, s: PortState)
    ensures var r := ValidateSchemaStep(o, s);
      var ts := Targets(StraightTable, ValidateSchemaAction, StraightFlags(r.state));
      && CreateJqFilterQueryAction in ts
      && (GoodResult in ts <==> r.state.validSchema == Some(true))
      && (ErrorState in ts <==> r.state.validSchema == Some(false))
  {
    SchemaRoutes(StraightFlags(ValidateSchemaStep(o, s).state));
  }

  /**
   * After `create_jq_filter_query` the table offers exactly one target:
   * `validate_json` when every fragment was verified, `error_state` when one
   * ran out of retries.
   */
  lemma CreateStepRouting(o: Oracles, s: PortState)
    ensures var r := CreateJqFilterQueryStep(o, s);
      var ts := Targets(StraightTable, CreateJqFilterQueryAction, StraightFlags(r.state));
      && (ValidateJsonAction in ts <==> r.output.Filter?)
      && (ErrorState in ts <==> r.output.FragmentError?)
      && (ValidateJsonAction in ts <==> ErrorState !in ts)
  {
    var r := CreateJqFilterQueryStep(o, s);
    CreateRoutes(StraightFlags(r.state));
  }

  /**
   * After `validate_json` the table offers exactly one target: `good_result`
   * when the filter was validated, `error_state` when validation gave up.
   */
  lemma ValidateJsonStepRouting(o: Oracles, s: PortState)
    requires s.jqFilter.Some?
    ensures var r := ValidateJsonStep(o, s);
      var ts := Targets(StraightTable, ValidateJsonAction, StraightFlags(r.state));
      && (GoodResult in ts <==> r.output.CompleteFilter?)
      && (ErrorState in ts <==> r.output.ValidationError?)
      && (GoodResult in ts <==> ErrorState !in ts)
  {
    var r := ValidateJsonStep(o, s);
    ValidateJsonRoutes(StraightFlags(r.state));
  }

  /** A successful `create_jq_filter_query` leaves what `validate_json` needs: a filter to check. */
  lemma CreateFeedsValidateJson(o: Oracles, s: PortState)
    ensures var r := CreateJqFilterQueryStep(o, s);
      ValidateJsonAction in Targets(StraightTable, CreateJqFilterQueryAction, StraightFlags(r.state)) ==>
        r.state.jqFilter.Some?
  {
    CreateStepRouting(o, s);
  }
}
