/**
 * The granular Burr port (jaiqu/jaiqu_burr_granular.py): the pipeline cut into
 * actions that each handle one property and then hand control back to Burr, which
 * follows the transition table. `validate_schema` analyses one property per run,
 * `create_jq_filter_query` builds one fragment per run, `finalize_filter`
 * assembles the filter and `validate_json` checks and repairs it. Every loop
 * counts its retries from zero and gives up once `tries >= max_retries`.
 */
module Granular {
  import opened Wrappers
  import opened OrderedMaps
  import opened Types
  import opened Helpers
  import opened RepairLoops
  import opened SchemaValidation
  import opened Burr

  /** The Burr state the actions read and write; a field no action has written yet is `None` or empty. */
  datatype GranularState = GranularState(
    schema: OutputSchema,
    maxRetries: int,
    schemaProperties: OMap<PropertyResult>, // the property records analysed so far
    filterQuery: OMap<Option<string>>,      // the fragments built so far; `None` for a skipped property
    jqFilter: Option<string>,
    completeFilter: Option<string>,
    validSchema: Option<bool>,
    schemaProcessed: Option<bool>,
    filtersCreated: Option<bool>,
    maxRetriesHit: Option<bool>)

  /** The state `build_application` starts from. */
  function InitialState(schema: OutputSchema, maxRetries: int): GranularState
  {
    GranularState(schema, maxRetries, [], [], None, None, None, None, None, None)
  }

  // -------------------------------------------------------- validate_schema

  /** The position of the first property, in declaration order, that has no record yet. */
  function NextProperty(s: GranularState): nat
  {
    FirstNotIn(s.schema.properties, Keys(s.schemaProperties))
  }

  /**
   * `validate_schema`: record the first property without a record and set
   * `valid_schema` from that property alone (`valid` starts at `True` in every
   * run); when every property has a record, set `schema_processed` and
   * `valid_schema` to true.
   */
  function ValidateSchemaStep(o: Oracles, s: GranularState): (r: Step<GranularState>)
    ensures r.checks == 0 && r.repairs == 0
    ensures r.output == Records(r.state.schemaProperties)
    ensures r.state == s.(schemaProperties := r.state.schemaProperties, validSchema := r.state.validSchema,
                          schemaProcessed := r.state.schemaProcessed)
    ensures var props := s.schema.properties;
      var i := NextProperty(s);
      && (i == |props| ==> r.state == s.(validSchema := Some(true), schemaProcessed := Some(true)))
      && (i < |props| ==>
            && r.state.schemaProperties ==
                 s.schemaProperties + [(props[i].0, MakeRecord(o, s.schema.required, props[i].0, props[i].1))]
            && r.state.schemaProcessed == Some(false)
            && r.state.validSchema ==
                 Some(!(props[i].0 in s.schema.required && o.identifyKey(props[i].0, props[i].1).key.None?)))
  {
    var props := s.schema.properties;
    var i := NextProperty(s);
    if i == |props| then
      Step(Records(s.schemaProperties), s.(validSchema := Some(true), schemaProcessed := Some(true)), 0, 0)
    else
      var (key, value) := props[i];
      var record := MakeRecord(o, s.schema.required, key, value);
      var valid := !(record.required && !record.identified);
      var records := Put(s.schemaProperties, key, record);
      Step(Records(records), s.(validSchema := Some(valid), schemaProperties := records, schemaProcessed := Some(false)), 0, 0)
  }

  /** No record so far is of a required property the model found no key for. */
  predicate AllRequiredIdentified(records: OMap<PropertyResult>)
  {
    forall i :: 0 <= i < |records| ==> (records[i].1.required ==> records[i].1.identified)
  }

  /**
   * `validate_schema` with the verdict kept across runs: `valid_schema` reports
   * every record so far, as the verdict of the single-pass `validate_schema` does.
   */
  function ValidateSchemaStepAccumulating(o: Oracles, s: GranularState): (r: Step<GranularState>)
    ensures r.state.validSchema == Some(AllRequiredIdentified(r.state.schemaProperties))
    ensures r == ValidateSchemaStep(o, s).(state := r.state, output := r.output)
    ensures r.state == ValidateSchemaStep(o, s).state.(validSchema := r.state.validSchema)
  {
    var step := ValidateSchemaStep(o, s);
    step.(state := step.state.(validSchema := Some(AllRequiredIdentified(step.state.schemaProperties))))
  }

  /** `n` runs of the accumulating `validate_schema` in a row, starting from `s`. */
  function SchemaRounds(o: Oracles, s: GranularState, n: nat): GranularState
  {
    if n == 0 then s else ValidateSchemaStepAccumulating(o, SchemaRounds(o, s, n - 1)).state
  }

  /** `n` runs of `validate_schema` as written in a row, starting from `s`. */
  function SchemaRoundsAsWritten(o: Oracles, s: GranularState, n: nat): GranularState
  {
    if n == 0 then s else ValidateSchemaStep(o, SchemaRoundsAsWritten(o, s, n - 1)).state
  }

  /** The records are those of the first `n` properties, in declaration order, as the single-pass analysis makes them. */
  predicate RecordsFirst(o: Oracles, s: GranularState, n: nat)
  {
    && n <= |s.schema.properties|
    && |s.schemaProperties| == n
    && forall i :: 0 <= i < n ==>
         s.schemaProperties[i] == (s.schema.properties[i].0,
           MakeRecord(o, s.schema.required, s.schema.properties[i].0, s.schema.properties[i].1))
  }

  /** With the first `n` properties recorded and distinct property names, the next property is number `n`. */
  lemma NextAfterRecorded(o: Oracles, s: GranularState, n: nat)
    requires WellFormed(s.schema)
    requires RecordsFirst(o, s, n)
    ensures NextProperty(s) == n
  {
    var props := s.schema.properties;
    var done := Keys(s.schemaProperties);
    assert forall j :: 0 <= j < n ==> done[j] == props[j].0;
    if n < |props| {
      forall j | 0 <= j < n
        ensures done[j] != props[n].0
      {
        assert done[j] == props[j].0;
      }
      assert props[n].0 !in done;
    }
    FirstNotInAt(props, done, n);
  }

  /** Every field but the three `validate_schema` writes still holds its initial value. */
  predicate OnlySchemaFieldsWritten(s: GranularState, schema: OutputSchema, maxRetries: int)
  {
    && s.schema == schema && s.maxRetries == maxRetries
    && s.filterQuery == [] && s.jqFilter == None && s.completeFilter == None
    && s.filtersCreated == None && s.maxRetriesHit == None
  }

  /** One more run records property number `n` and routes back to `validate_schema`. */
  lemma SchemaRoundRecordsNext(o: Oracles, s: GranularState, n: nat)
    requires WellFormed(s.schema)
    requires RecordsFirst(o, s, n) && n < |s.schema.properties|
    ensures var t := ValidateSchemaStepAccumulating(o, s).state;
      && RecordsFirst(o, t, n + 1)
      && t == s.(schemaProperties := t.schemaProperties, validSchema := t.validSchema, schemaProcessed := Some(false))
      && (OnlySchemaFieldsWritten(s, s.schema, s.maxRetries) ==> OnlySchemaFieldsWritten(t, s.schema, s.maxRetries))
  {
    NextAfterRecorded(o, s, n);
    var props := s.schema.properties;
    var t := ValidateSchemaStepAccumulating(o, s).state;
    var step := ValidateSchemaStep(o, s);
    assert t == step.state.(validSchema := t.validSchema);
    var added := (props[n].0, MakeRecord(o, s.schema.required, props[n].0, props[n].1));
    assert t.schemaProperties == s.schemaProperties + [added];
    forall i | 0 <= i < n + 1
      ensures t.schemaProperties[i] == (props[i].0, MakeRecord(o, s.schema.required, props[i].0, props[i].1))
    {
      if i < n {
        assert t.schemaProperties[i] == s.schemaProperties[i];
      }
    }
  }

  /**
   * What `n` runs of `validate_schema` leave: the first `n` properties recorded in
   * order, only the three fields it writes changed, and `schema_processed` false
   * once it has run.
   */
  predicate AfterSchemaRounds(o: Oracles, s: GranularState, schema: OutputSchema, maxRetries: int, n: nat)
  {
    && RecordsFirst(o, s, n)
    && OnlySchemaFieldsWritten(s, schema, maxRetries)
    && (n > 0 ==> s.schemaProcessed == Some(false))
  }

  /** One more run, while a property is still unrecorded, keeps the round invariant. */
  lemma SchemaRoundKeepsInvariant(o: Oracles, schema: OutputSchema, maxRetries: int, n: nat)
    requires WellFormed(schema) && n < |schema.properties|
    requires AfterSchemaRounds(o, SchemaRounds(o, InitialState(schema, maxRetries), n), schema, maxRetries, n)
    ensures AfterSchemaRounds(o, SchemaRounds(o, InitialState(schema, maxRetries), n + 1), schema, maxRetries, n + 1)
  {
    var s := SchemaRounds(o, InitialState(schema, maxRetries), n);
    SchemaRoundRecordsNext(o, s, n);
    assert SchemaRounds(o, InitialState(schema, maxRetries), n + 1) == ValidateSchemaStepAccumulating(o, s).state;
  }

  /**
   * Run `n` of `validate_schema`, for `n` up to the number of properties, has
   * recorded exactly the first `n` properties, in declaration order, each with
   * the record the single-pass analysis gives it; it still routes back to itself,
   * and nothing but the three fields it writes has changed.
   */
  lemma {:induction false} SchemaRoundsRecordInOrder(o: Oracles, schema: OutputSchema, maxRetries: int, n: nat)
    requires WellFormed(schema)
    requires n <= |schema.properties|
    ensures AfterSchemaRounds(o, SchemaRounds(o, InitialState(schema, maxRetries), n), schema, maxRetries, n)
  {
    if n > 0 {
      var m: nat := n - 1;
      SchemaRoundsRecordInOrder(o, schema, maxRetries, m);
      SchemaRoundKeepsInvariant(o, schema, maxRetries, m);
    }
  }

  /**
   * After one run per property and one more, the accumulating `validate_schema`
   * holds exactly the records of the single-pass analysis, `schema_processed` is
   * true, and `valid_schema` is the single-pass verdict: false exactly when some
   * required property got no key.
   */
  lemma SchemaRoundsMatchAnalysis(o: Oracles, schema: OutputSchema, maxRetries: int)
    requires WellFormed(schema)
    ensures var s := SchemaRounds(o, InitialState(schema, maxRetries), |schema.properties| + 1);
      && s.schemaProperties == ValidateSchema(o, schema).results
      && s.schemaProcessed == Some(true)
      && s.validSchema == Some(ValidateSchema(o, schema).valid)
  {
    var n := |schema.properties|;
    SchemaRoundsRecordInOrder(o, schema, maxRetries, n);
    var s := SchemaRounds(o, InitialState(schema, maxRetries), n);
    NextAfterRecorded(o, s, n);
    var an := ValidateSchema(o, schema);
    assert s.schemaProperties == an.results by {
      forall j | 0 <= j < n
        ensures s.schemaProperties[j] == an.results[j]
      {
        assert Keys(an.results)[j] == Keys(schema.properties)[j];
      }
    }
    var t := SchemaRounds(o, InitialState(schema, maxRetries), n + 1);
    assert t == ValidateSchemaStepAccumulating(o, s).state;
    assert t.schemaProperties == s.schemaProperties;
    if !an.valid {
      var i :| 0 <= i < |an.results| && an.results[i].1.required && !an.results[i].1.identified;
      assert !AllRequiredIdentified(t.schemaProperties);
    }
  }

  /**
   * As written, the last run of `validate_schema` always sets `valid_schema` to
   * true, whatever the records say, and so cannot route to `error_state`.
   */
  lemma FinalSchemaVerdictIsTrue(o: Oracles, s: GranularState)
    requires NextProperty(s) == |s.schema.properties|
    ensures ValidateSchemaStep(o, s).state.validSchema == Some(true)
    ensures ErrorState !in Targets(GranularTable, ValidateSchemaAction, GranularFlags(ValidateSchemaStep(o, s).state))
  {
    SchemaRoutes(GranularFlags(ValidateSchemaStep(o, s).state));
  }

  /** Two states with the same schema, the same records and the same `schema_processed`. */
  predicate SameRecords(a: GranularState, b: GranularState)
  {
    a.schema == b.schema && a.schemaProperties == b.schemaProperties && a.schemaProcessed == b.schemaProcessed
  }

  /** One more run of each kind, from rounds that agree on the records, keeps them in agreement. */
  lemma RoundKeepsSameRecords(o: Oracles, s: GranularState, n: nat)
    requires SameRecords(SchemaRoundsAsWritten(o, s, n), SchemaRounds(o, s, n))
    ensures SameRecords(SchemaRoundsAsWritten(o, s, n + 1), SchemaRounds(o, s, n + 1))
  {
    var a := SchemaRoundsAsWritten(o, s, n);
    var b := SchemaRounds(o, s, n);
    assert NextProperty(a) == NextProperty(b);
  }

  /** The runs as written and the accumulating runs differ in `valid_schema` alone: the verdict is never read back. */
  lemma {:induction false} AsWrittenDiffersOnlyInVerdict(o: Oracles, s: GranularState, n: nat)
    ensures SameRecords(SchemaRoundsAsWritten(o, s, n), SchemaRounds(o, s, n))
  {
    if n > 0 {
      var m: nat := n - 1;
      AsWrittenDiffersOnlyInVerdict(o, s, m);
      RoundKeepsSameRecords(o, s, m);
    }
  }

  /**
   * As written, one run per property and one more leave the records of the
   * single-pass analysis with `schema_processed` true, yet `valid_schema` is true
   * whatever those records say, and the table offers no route to `error_state`.
   */
  lemma AsWrittenFinalVerdictIsTrue(o: Oracles, schema: OutputSchema, maxRetries: int)
    requires WellFormed(schema)
    ensures var s := SchemaRoundsAsWritten(o, InitialState(schema, maxRetries), |schema.properties| + 1);
      && s.schemaProperties == ValidateSchema(o, schema).results
      && s.schemaProcessed == Some(true)
      && s.validSchema == Some(true)
      && ErrorState !in Targets(GranularTable, ValidateSchemaAction, GranularFlags(s))
  {
    var n := |schema.properties|;
    var init := InitialState(schema, maxRetries);
    AsWrittenDiffersOnlyInVerdict(o, init, n);
    SchemaRoundsRecordInOrder(o, schema, maxRetries, n);
    SchemaRoundsMatchAnalysis(o, schema, maxRetries);
    var a := SchemaRoundsAsWritten(o, init, n);
    var b := SchemaRounds(o, init, n);
    assert RecordsFirst(o, a, n);
    NextAfterRecorded(o, a, n);
    NextAfterRecorded(o, b, n);
    assert SchemaRoundsAsWritten(o, init, n + 1) == ValidateSchemaStep(o, a).state;
    assert SchemaRounds(o, init, n + 1) == ValidateSchemaStepAccumulating(o, b).state;
    SchemaRoutes(GranularFlags(SchemaRoundsAsWritten(o, init, n + 1)));
  }

  /** The oracles of the counterexample: the model finds no key for anything. */
  function NoKeyOracles(): Oracles
  {
    Oracles((name, descriptor) => KeyAnswer(None, "no match"),
            (key, record) => NoneSentinel,
            (query, error) => query,
            query => RunFailed("no input"),
            value => Pass)
  }

  /** A schema with one required property, `id`. */
  function RequiredIdSchema(): OutputSchema
  {
    OutputSchema([("id", JNull)], ["id"])
  }

  /**
   * The schema requiring `id` is unsatisfiable when the model finds no key, yet two
   * runs of `validate_schema` as written leave `valid_schema` true and offer only
   * `create_jq_filter_query`; the accumulating version reports false and offers
   * `error_state`.
   */
  lemma UnsatisfiableSchemaPassesAsWritten()
    ensures !ValidateSchema(NoKeyOracles(), RequiredIdSchema()).valid
    ensures var s := SchemaRoundsAsWritten(NoKeyOracles(), InitialState(RequiredIdSchema(), 3), 2);
      var ts := Targets(GranularTable, ValidateSchemaAction, GranularFlags(s));
      s.validSchema == Some(true) && CreateJqFilterQueryAction in ts && ErrorState !in ts
    ensures var s := SchemaRounds(NoKeyOracles(), InitialState(RequiredIdSchema(), 3), 2);
      s.validSchema == Some(false) && ErrorState in Targets(GranularTable, ValidateSchemaAction, GranularFlags(s))
  {
    var o := NoKeyOracles();
    var schema := RequiredIdSchema();
    assert ValidateSchema(o, schema).results[0].1.required;
    var s0 := InitialState(schema, 3);
    assert NextProperty(s0) == 0;
    var s1 := ValidateSchemaStep(o, s0).state;
    assert Keys(s1.schemaProperties) == ["id"];
    assert NextProperty(s1) == 1;
    var s2 := ValidateSchemaStep(o, s1).state;
    assert s2 == SchemaRoundsAsWritten(o, s0, 2);
    SchemaRoutes(GranularFlags(s2));
    var t1 := ValidateSchemaStepAccumulating(o, s0).state;
    assert Keys(t1.schemaProperties) == ["id"];
    assert NextProperty(t1) == 1;
    var t2 := ValidateSchemaStepAccumulating(o, t1).state;
    assert t2 == SchemaRounds(o, s0, 2);
    assert !t2.schemaProperties[0].1.identified;
    SchemaRoutes(GranularFlags(t2));
  }

  // ------------------------------------------------- create_jq_filter_query

  /** The identified records, in declaration order: the properties fragments are built for. */
  function IdentifiedRecords(s: GranularState): OMap<PropertyResult>
  {
    Select(s.schemaProperties, IsIdentified)
  }

  /** The position of the first identified property, in declaration order, with no entry in `filter_query` yet. */
  function NextFragment(s: GranularState): nat
  {
    FirstNotIn(IdentifiedRecords(s), Keys(s.filterQuery))
  }

  /**
   * `create_jq_filter_query`: build the fragment of the first identified property
   * without one. A "None" answer is recorded as `None` without compiling anything;
   * otherwise the fragment is checked and repaired with a counter starting at zero
   * and kept once it runs, or the action reports the property by name once the
   * counter reaches `max_retries`. With no property left it sets `filters_created`.
   */
  function CreateJqFilterQueryStep(o: Oracles, s: GranularState): (r: Step<GranularState>)
    ensures r.state == s.(filterQuery := r.state.filterQuery, jqFilter := r.state.jqFilter,
                          maxRetriesHit := r.state.maxRetriesHit, filtersCreated := r.state.filtersCreated)
    ensures r.state.filtersCreated == Some(NextFragment(s) == |IdentifiedRecords(s)|)
    ensures NextFragment(s) == |IdentifiedRecords(s)| ==>
      r.state == s.(filtersCreated := Some(true)) && r.output == JqString(None) && r.checks == 0 && r.repairs == 0
    ensures var ids := IdentifiedRecords(s);
      var i := NextFragment(s);
      i < |ids| ==>
        var fragment := o.createJqString(ids[i].0, ids[i].1);
        && (fragment == NoneSentinel ==>
              && r.state == s.(filterQuery := s.filterQuery + [(ids[i].0, None)], filtersCreated := Some(false))
              && r.output == JqString(None) && r.checks == 0 && r.repairs == 0)
        && (fragment != NoneSentinel && r.output.JqString? ==>
              && r.output.fragment.Some?
              && FragmentCheck(o, r.output.fragment.value) == Pass
              && r.state.filterQuery == s.filterQuery + [(ids[i].0, r.output.fragment)]
              && r.state.maxRetriesHit == Some(false) && r.state.jqFilter == s.jqFilter
              && r.repairs + 1 == r.checks <= Budget(0, s.maxRetries))
        && (fragment != NoneSentinel && !r.output.JqString? ==>
              && r.output == FragmentError(ids[i].0, s.maxRetries)
              && r.state.filterQuery == s.filterQuery
              && r.state.maxRetriesHit == Some(true) && r.state.jqFilter == None
              && r.checks == r.repairs == Budget(0, s.maxRetries))
    ensures var ids := IdentifiedRecords(s);
      var i := NextFragment(s);
      i < |ids| && o.createJqString(ids[i].0, ids[i].1) != NoneSentinel ==>
        var fragment := o.createJqString(ids[i].0, ids[i].1);
        && (r.output.JqString? <==>
              exists k :: 0 <= k < Budget(0, s.maxRetries) &&
                FragmentCheck(o, Candidate(FragmentChecker(o), o.repairQuery, fragment, k)) == Pass)
        && (r.output.JqString? ==>
              && r.output.fragment == Some(Candidate(FragmentChecker(o), o.repairQuery, fragment, r.repairs))
              && forall j :: 0 <= j < r.repairs ==>
                   FragmentCheck(o, Candidate(FragmentChecker(o), o.repairQuery, fragment, j)).Fail?)
  {
    var ids := IdentifiedRecords(s);
    var i := NextFragment(s);
    if i == |ids| then
      Step(JqString(None), s.(filterQuery := s.filterQuery, filtersCreated := Some(true)), 0, 0)
    else
      var (key, value) := ids[i];
      KeysMembership(s.filterQuery, key);
      var fragment := o.createJqString(key, value);
      if fragment == NoneSentinel then
        Step(JqString(None), s.(filterQuery := Put(s.filterQuery, key, None), filtersCreated := Some(false)), 0, 0)
      else
        var a := RepairFirst(FragmentChecker(o), o.repairQuery, fragment, 0, s.maxRetries);
        RepairFirstTrace(FragmentChecker(o), o.repairQuery, fragment, 0, s.maxRetries);
        if a.passed then
          Step(JqString(Some(a.text)),
               s.(filterQuery := Put(s.filterQuery, key, Some(a.text)), maxRetriesHit := Some(false), filtersCreated := Some(false)),
               a.checks, a.repairs)
        else
          Step(FragmentError(key, s.maxRetries),
               s.(maxRetriesHit := Some(true), jqFilter := None, filtersCreated := Some(false)),
               a.checks, a.repairs)
  }

  /**
   * When the jq engine rejects every query, a property whose fragment is not
   * "None" costs exactly `max(1, max_retries)` compilations and as many repairs,
   * and the action reports that property by name with `max_retries_hit` set.
   */
  lemma AlwaysFailingFragmentStep(o: Oracles, s: GranularState)
    requires forall q :: o.compileRun(q).RunFailed?
    requires NextFragment(s) < |IdentifiedRecords(s)|
    requires var e := IdentifiedRecords(s)[NextFragment(s)]; o.createJqString(e.0, e.1) != NoneSentinel
    ensures var r := CreateJqFilterQueryStep(o, s);
      && r.output == FragmentError(IdentifiedRecords(s)[NextFragment(s)].0, s.maxRetries)
      && r.repairs == r.checks == Max(1, s.maxRetries)
      && r.state.maxRetriesHit == Some(true)
  {
    var r := CreateJqFilterQueryStep(o, s);
    if r.output.JqString? {
      FragmentCheckPasses(o, r.output.fragment.value);
      assert false;
    }
  }

  // -------------------------------------------------------- finalize_filter

  predicate IsNone(v: Option<string>)
  {
    v.None?
  }

  /** How `f'"{key}": {path}'` prints an entry of `filter_query`: a `None` value prints as `None`. */
  function Printed(fq: OMap<Option<string>>): (m: OMap<string>)
    ensures Keys(m) == Keys(fq)
    ensures forall i :: 0 <= i < |fq| ==> m[i].1 == (if fq[i].1.Some? then fq[i].1.value else NoneSentinel)
  {
    seq(|fq|, i requires 0 <= i < |fq| => (fq[i].0, if fq[i].1.Some? then fq[i].1.value else NoneSentinel))
  }

  /**
   * `finalize_filter` as written: it assembles the filter from the entries whose
   * value is `None`, all of them and in their order in `filter_query`, so every
   * verified fragment is left out and each skipped property is printed as
   * `"key": None`.
   */
  function FinalizeFilter(s: GranularState): (r: Step<GranularState>)
    ensures r.state == s.(jqFilter := r.state.jqFilter)
    ensures r.state.jqFilter.Some? && r.output == Filter(r.state.jqFilter.value)
    ensures exists m: OMap<string> ::
      && r.state.jqFilter == Some(DictToJqFilter(m))
      && Keys(m) == Keys(Select(s.filterQuery, IsNone))
      && forall i :: 0 <= i < |m| ==> m[i].1 == NoneSentinel && (m[i].0, None) in s.filterQuery
  {
    var dropped := Select(s.filterQuery, IsNone);
    var m := Printed(dropped);
    PrintedNoneEntries(s.filterQuery);
    var filter := DictToJqFilter(m);
    Step(Filter(filter), s.(jqFilter := Some(filter)), 0, 0)
  }

  /** The entries `finalize_filter` prints are the `None` entries of `filter_query`, each printed as "None". */
  lemma PrintedNoneEntries(fq: OMap<Option<string>>)
    ensures var m := Printed(Select(fq, IsNone));
      forall i :: 0 <= i < |m| ==> m[i].1 == NoneSentinel && (m[i].0, None) in fq
  {
    var dropped := Select(fq, IsNone);
    var m := Printed(dropped);
    forall i | 0 <= i < |m|
      ensures m[i].1 == NoneSentinel && (m[i].0, None) in fq
    {
      assert Keys(m)[i] == Keys(dropped)[i];
      assert dropped[i] in fq && dropped[i].1.None?;
    }
  }

  /** With no skipped property, `finalize_filter` as written yields the empty object filter `{  }`, whatever was verified. */
  lemma FinalizeDropsEveryFragment(s: GranularState)
    requires forall i :: 0 <= i < |s.filterQuery| ==> s.filterQuery[i].1.Some?
    ensures FinalizeFilter(s).state.jqFilter == Some("{  }")
  {
  }

  /**
   * The fragments of `filter_query` that were verified, in order, without the
   * skipped properties: every kept entry is a `Some` entry of `filter_query` and
   * every `Some` entry is kept.
   */
  function KeptFragments(fq: OMap<Option<string>>): (kept: OMap<string>)
    ensures forall i :: 0 <= i < |kept| ==> (kept[i].0, Some(kept[i].1)) in fq
    ensures forall i :: 0 <= i < |fq| && fq[i].1.Some? ==> (fq[i].0, fq[i].1.value) in kept
    ensures IsSubsequence(Keys(kept), Keys(fq))
  {
    if |fq| == 0 then []
    else
      var rest := KeptFragments(fq[1..]);
      assert Keys(fq)[1..] == Keys(fq[1..]);
      assert forall i :: 1 <= i < |fq| ==> fq[i] == fq[1..][i - 1];
      if fq[0].1.Some? then
        var kept := [(fq[0].0, fq[0].1.value)] + rest;
        assert Keys(kept)[1..] == Keys(rest);
        kept
      else
        SubsequenceWeaken(Keys(rest), Keys(fq));
        rest
  }

  /**
   * `finalize_filter` as its variable name says it should work: the filter is
   * assembled from the verified fragments only, in the order they were built.
   */
  function FinalizeFilterKeepingFragments(s: GranularState): (r: Step<GranularState>)
    ensures r.state == s.(jqFilter := r.state.jqFilter)
    ensures r.state.jqFilter == Some(DictToJqFilter(KeptFragments(s.filterQuery)))
    ensures r.output == Filter(r.state.jqFilter.value)
  {
    var filter := DictToJqFilter(KeptFragments(s.filterQuery));
    Step(Filter(filter), s.(jqFilter := Some(filter)), 0, 0)
  }

  /**
   * Every fragment verified for a property appears in the corrected filter as
   * `"key": fragment`.
   */
  lemma KeptFilterHoldsEachFragment(s: GranularState, i: nat)
    requires i < |s.filterQuery| && s.filterQuery[i].1.Some?
    ensures Occurs(RenderEntry(s.filterQuery[i].0, s.filterQuery[i].1.value),
                   FinalizeFilterKeepingFragments(s).state.jqFilter.value)
  {
    var kept := KeptFragments(s.filterQuery);
    var j :| 0 <= j < |kept| && kept[j] == (s.filterQuery[i].0, s.filterQuery[i].1.value);
    FilterEntryAt(kept, j);
    var at := 2 + Offset(RenderEntries(kept), Separator, j);
    assert OccursAt(RenderEntry(kept[j].0, kept[j].1), DictToJqFilter(kept), at);
  }

  /** The fragment map of the counterexample: one verified fragment, `.id`, for `id`. */
  const OneVerified: OMap<Option<string>> := [("id", Some(".id"))]

  /** With the fragment `.id` verified for `id`, `finalize_filter` as written assembles the empty filter `{  }`. */
  lemma FinalizeCounterexample(s: GranularState)
    requires s.filterQuery == OneVerified
    ensures FinalizeFilter(s).state.jqFilter == Some("{  }")
  {
    FinalizeDropsEveryFragment(s);
  }

  /** From the same fragment map the corrected `finalize_filter` assembles `{ "id": .id }`. */
  lemma FinalizeCorrectedOnCounterexample(s: GranularState)
    requires s.filterQuery == OneVerified
    ensures FinalizeFilterKeepingFragments(s).state.jqFilter == Some("{ \"id\": .id }")
  {
    var kept := KeptFragments(s.filterQuery);
    assert KeptFragments(OneVerified[1..]) == [];
    assert kept == [("id", ".id")];
    var parts := RenderEntries(kept);
    assert |parts| == 1 && parts[0] == RenderEntry("id", ".id");
    assert Join(parts, Separator) == "\"id\": .id";
    assert DictToJqFilter(kept) == "{ " + "\"id\": .id" + " }";
    assert "{ " + "\"id\": .id" + " }" == "{ \"id\": .id }";
  }

  // ---------------------------------------------------------- validate_json

  /**
   * `validate_json`: run the assembled filter, validate its first result against
   * the schema, and repair it on failure, with a counter starting at zero; give up
   * once the counter reaches `max_retries`, keeping the last filter checked.
   */
  function ValidateJsonStep(o: Oracles, s: GranularState): (r: Step<GranularState>)
    requires s.jqFilter.Some?
    ensures r.state == s.(maxRetriesHit := r.state.maxRetriesHit, completeFilter := r.state.completeFilter)
    ensures r.state.maxRetriesHit.Some? && r.state.completeFilter.Some?
    ensures r.repairs + 1 == r.checks <= Max(1, s.maxRetries)
    ensures r.state.maxRetriesHit == Some(false) ==>
      r.output == CompleteFilter(r.state.completeFilter.value) && CompositeAccepted(o, r.state.completeFilter.value)
    ensures r.state.maxRetriesHit == Some(true) ==>
      && r.output == ValidationError(s.maxRetries)
      && r.checks == Max(1, s.maxRetries)
      && CompositeCheck(o, r.state.completeFilter.value).Fail?
  {
    var a := TestFirst(CompositeChecker(o), o.repairQuery, s.jqFilter.value, 0, s.maxRetries);
    CompositeCheckPasses(o, a.text);
    if a.passed then
      Step(CompleteFilter(a.text), s.(completeFilter := Some(a.text), maxRetriesHit := Some(false)), a.checks, a.repairs)
    else
      Step(ValidationError(s.maxRetries), s.(maxRetriesHit := Some(true), completeFilter := Some(a.text)), a.checks, a.repairs)
  }

  /**
   * `validate_json` tries the filter and its successive repairs in order: it
   * succeeds exactly when one of the first `max(1, max_retries)` candidates is
   * accepted, and it keeps the candidate it stopped at.
   */
  lemma ValidateJsonSearch(o: Oracles, s: GranularState)
    requires s.jqFilter.Some?
    ensures var r := ValidateJsonStep(o, s);
      && r.state.completeFilter.value == Candidate(CompositeChecker(o), o.repairQuery, s.jqFilter.value, r.repairs)
      && (forall j :: 0 <= j < r.repairs ==>
            CompositeCheck(o, Candidate(CompositeChecker(o), o.repairQuery, s.jqFilter.value, j)).Fail?)
      && (r.state.maxRetriesHit == Some(false) <==>
            exists k :: 0 <= k < Max(1, s.maxRetries) &&
              CompositeCheck(o, Candidate(CompositeChecker(o), o.repairQuery, s.jqFilter.value, k)) == Pass)
  {
    TestFirstTrace(CompositeChecker(o), o.repairQuery, s.jqFilter.value, 0, s.maxRetries);
  }

  // ---------------------------------------------------------------- routing

  /**
   * After `validate_schema` as written, the table offers `validate_schema` again
   * exactly when a property was left to record, `create_jq_filter_query` exactly
   * when none was, and `error_state` only alongside `validate_schema`.
   */
  lemma SchemaStepRouting(o: Oracles, s: GranularState)
    ensures var ts := Targets(GranularTable, ValidateSchemaAction, GranularFlags(ValidateSchemaStep(o, s).state));
      && (ValidateSchemaAction in ts <==> NextProperty(s) < |s.schema.properties|)
      && (CreateJqFilterQueryAction in ts <==> NextProperty(s) == |s.schema.properties|)
      && (ErrorState in ts ==> ValidateSchemaAction in ts)
  {
    SchemaRoutes(GranularFlags(ValidateSchemaStep(o, s).state));
  }

  /**
   * After `create_jq_filter_query`, the table offers the action again exactly
   * while an identified property has no fragment, `finalize_filter` exactly when
   * none is left, and, after a failed fragment, `error_state` alongside the retry.
   */
  lemma CreateStepRouting(o: Oracles, s: GranularState)
    ensures var r := CreateJqFilterQueryStep(o, s);
      var ts := Targets(GranularTable, CreateJqFilterQueryAction, GranularFlags(r.state));
      && (CreateJqFilterQueryAction in ts <==> NextFragment(s) < |IdentifiedRecords(s)|)
      && (FinalizeFilterAction in ts <==> NextFragment(s) == |IdentifiedRecords(s)|)
      && (r.output.FragmentError? ==> ErrorState in ts && CreateJqFilterQueryAction in ts)
      && (r.output.JqString? && r.output.fragment.Some? ==> ErrorState !in ts)
  {
    CreateRoutes(GranularFlags(CreateJqFilterQueryStep(o, s).state));
  }

  /**
   * After `validate_json`, the table offers `error_state` exactly when validation
   * gave up, and `good_result` in every case, also then.
   */
  lemma ValidateJsonStepRouting(o: Oracles, s: GranularState)
    requires s.jqFilter.Some?
    ensures var r := ValidateJsonStep(o, s);
      var ts := Targets(GranularTable, ValidateJsonAction, GranularFlags(r.state));
      && GoodResult in ts
      && (ErrorState in ts <==> r.output.ValidationError?)
  {
    ValidateJsonRoutes(GranularFlags(ValidateJsonStep(o, s).state));
  }

  // ------------------------------------------------------------ transitions

  /** The transition table of `build_application`, row for row. */
  const GranularTable: seq<Transition> := [
    Transition(ValidateSchemaAction, ValidateSchemaAction, When(SchemaProcessed, false)),
    Transition(ValidateSchemaAction, CreateJqFilterQueryAction, When(SchemaProcessed, true)),
    Transition(ValidateSchemaAction, ErrorState, When(ValidSchema, false)),
    Transition(CreateJqFilterQueryAction, CreateJqFilterQueryAction, When(FiltersCreated, false)),
    Transition(CreateJqFilterQueryAction, FinalizeFilterAction, When(FiltersCreated, true)),
    Transition(CreateJqFilterQueryAction, ErrorState, When(MaxRetriesHit, true)),
    Transition(FinalizeFilterAction, ValidateJsonAction, Default),
    Transition(ValidateJsonAction, ErrorState, When(MaxRetriesHit, true)),
    Transition(ValidateJsonAction, GoodResult, Default)
  ]

  /** The boolean fields of the state the table's conditions read. */
  function GranularFlags(s: GranularState): Flags
  {
    Flags(s.validSchema, s.schemaProcessed, s.filtersCreated, s.maxRetriesHit, None)
  }

  // The rows leaving each action: which targets the table offers for which flags.

  /** `validate_schema` loops until `schema_processed` and errs on `valid_schema=False`. */
  lemma SchemaRoutes(flags: Flags)
    ensures var ts := Targets(GranularTable, ValidateSchemaAction, flags);
      && (ValidateSchemaAction in ts <==> flags.schemaProcessed == Some(false))
      && (CreateJqFilterQueryAction in ts <==> flags.schemaProcessed == Some(true))
      && (ErrorState in ts <==> flags.validSchema == Some(false))
      && (forall a :: a in ts ==> a == ValidateSchemaAction || a == CreateJqFilterQueryAction || a == ErrorState)
  {
    var t := GranularTable;
    assert t[0].from == t[1].from == t[2].from == ValidateSchemaAction;
  }

  /** `create_jq_filter_query` loops until `filters_created` and errs on `max_retries_hit`. */
  lemma CreateRoutes(flags: Flags)
    ensures var ts := Targets(GranularTable, CreateJqFilterQueryAction, flags);
      && (CreateJqFilterQueryAction in ts <==> flags.filtersCreated == Some(false))
      && (FinalizeFilterAction in ts <==> flags.filtersCreated == Some(true))
      && (ErrorState in ts <==> flags.maxRetriesHit == Some(true))
      && (forall a :: a in ts ==> a == CreateJqFilterQueryAction || a == FinalizeFilterAction || a == ErrorState)
  {
    var t := GranularTable;
    assert t[3].from == t[4].from == t[5].from == CreateJqFilterQueryAction;
  }

  /** `finalize_filter` always goes on to `validate_json`, and nowhere else. */
  lemma FinalizeRoutes(flags: Flags)
    ensures var ts := Targets(GranularTable, FinalizeFilterAction, flags);
      ValidateJsonAction in ts && forall a :: a in ts ==> a == ValidateJsonAction
  {
    assert GranularTable[6].from == FinalizeFilterAction;
  }

  /** `validate_json` errs on `max_retries_hit` and offers `good_result` in every case. */
  lemma ValidateJsonRoutes(flags: Flags)
    ensures var ts := Targets(GranularTable, ValidateJsonAction, flags);
      && GoodResult in ts
      && (ErrorState in ts <==> flags.maxRetriesHit == Some(true))
      && (forall a :: a in ts ==> a == ErrorState || a == GoodResult)
  {
    assert GranularTable[7].from == GranularTable[8].from == ValidateJsonAction;
  }
}
