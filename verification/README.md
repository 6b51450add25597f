# Jaiqu in Dafny

Jaiqu turns a JSON Schema and an input JSON document into a `jq` filter that
extracts from the document an object satisfying the schema. A language model does
the creative work. It names the input key for each schema property, writes a jq
fragment per property and repairs queries that fail. Jaiqu supplies the
deterministic skeleton around those calls, and this project models that skeleton:

- **Schema analysis (`validate_schema`).** One record per schema property, in
  declaration order. The verdict is false exactly when a required property got
  no input key.
- **Filter assembly (`dict_to_jq_filter`).** An ordered map is printed as
  `{ "k1": q1,\n "k2": q2 }`. `to_bool` is modelled too.
- **Bounded verify-and-repair loops.**
  - The fragment loop compiles and runs a fragment.
  - The composite loop also takes the first result and validates it against the schema.
  - `jaiqu/jaiqu.py` shares one counter across the whole run and stops at `tries > max_retries`.
  - The Burr ports start a fresh counter in every loop and stop at `tries >= max_retries`.
- **Filtering rules.** Only identified properties get a fragment. A fragment that
  is exactly `"None"` is never compiled.
- **The three pipelines.**
  - `translate_schema` in `jaiqu/jaiqu.py`.
  - The granular Burr port, whose actions each handle one property per run.
  - The straight Burr port. `jaiqu/jaiqu_burr.py` repeats its three actions line for line.
  - Each port's transition table is kept as data, together with the targets it offers after each action.

The language model, the jq engine and the JSON Schema validator are uninterpreted
total functions collected in `Types.Oracles`. They have the shape their callers use:

- `identifyKey(name, descriptor)` gives a key or `None`, plus reasoning;
- `createJqString(key, record)`;
- `repairQuery(query, error)`;
- `compileRun(query)` gives the results or the error text;
- `validate(value)`.

The input document and key hints never change during a run, so the oracles have them built in.

Files, one module each:

- `wrappers.dfy`: `Option`, `Result`, `Max`.
- `ordered_maps.dfy`: Python dicts as ordered sequences of entries.
- `helpers.dfy`: `to_bool` and `dict_to_jq_filter`.
- `types.dfy`: schema, records and oracles.
- `repair_loops.dfy`: the two loop shapes and their candidate sequences.
- `schema_validation.dfy`: the single-pass analysis.
- `fragments.dfy`: what one property's fragment step did.
- `jaiqu.dfy`: `translate_schema` of `jaiqu/jaiqu.py`.
- `burr.dfy`: transition tables and action results.
- `granular.dfy`: the granular port.
- `straight_port.dfy`: the straight port.

## Model

| member | source | states |
|---|---|---|
| Helpers.ContainsIsOccurs | jaiqu/helpers.py:37 | Python's substring test `p in s` holds exactly when `p` occurs at some position of `s` |
| Helpers.ToBool | jaiqu/helpers.py:36-39 | `to_bool(s)` is true exactly when four consecutive characters of `s` spell "true" in any mix of cases |
| Helpers.ToBoolCaseInsensitive | jaiqu/helpers.py:37 | `to_bool(lower(s)) == to_bool(s)` |
| Helpers.BuildJqFilter | jaiqu/helpers.py:84-93 | the loop that renders one part per entry and joins them builds text that opens with `{ ` and closes with ` }`, is `{  }` for an empty map, and holds every entry verbatim as `"key": path` at its offset, followed by `,\n ` unless it is the last, so entries keep the map's order |
| Helpers.JoinLength | jaiqu/helpers.py:92 | joining n parts inserts exactly n-1 separators |
| Helpers.JoinPartAt | jaiqu/helpers.py:92 | part i sits verbatim in the join at the sum of the earlier parts and separators |
| Helpers.JoinSeparatorAfter | jaiqu/helpers.py:92 | the separator follows every part but the last |
| Helpers.JoinLayout | jaiqu/helpers.py:92 | every part sits verbatim in the join, followed by the separator unless it is the last |
| Helpers.DictToJqFilter | jaiqu/helpers.py:84-93 | the filter begins with `{ ` and ends with ` }`; an empty map gives exactly `{  }`; otherwise its length is the rendered entries plus three characters per gap |
| Helpers.FilterEntryAt | jaiqu/helpers.py:86-89 | entry i appears verbatim as `"key": path` at its offset, followed by `,\n ` unless it is last, so entries keep the map's order |
| Helpers.FilterAppend | jaiqu/helpers.py:85-92 | inserting a new key puts its entry last: ` }` becomes `,\n "key": path }` |
| OrderedMaps.IndexOf | jaiqu/jaiqu_burr_granular.py:23 | the position of a key is its first occurrence, or the length when absent |
| OrderedMaps.Get | jaiqu/jaiqu_burr_granular.py:45-46 | a lookup finds a value exactly when the key is present, and the value is that key's entry; after `Put` it reads back the value just stored |
| OrderedMaps.Put | jaiqu/jaiqu_burr_granular.py:37-43 | assignment appends a new key and keeps an existing key's position; it changes that key's value and no other key's, and keeps keys distinct |
| OrderedMaps.FirstNotIn | jaiqu/jaiqu_burr_granular.py:22-26 | the scan stops at the first entry whose key is not yet done, and every key before it is done |
| OrderedMaps.Select | jaiqu/jaiqu.py:41 | a filtering comprehension keeps exactly the entries that pass, in their original order |
| OrderedMaps.SelectKeepsDistinct | jaiqu/jaiqu.py:41 | filtering a dict keeps its keys distinct |
| RepairLoops.RepairFirst | jaiqu/jaiqu_burr_granular.py:87-98 | fragment loop: each failure costs one check and one repair; it gives up with exactly the budget of repairs once the counter reaches the bound; when it ends by passing, the text it holds passed |
| RepairLoops.TestFirst | jaiqu/jaiqu_burr_granular.py:123-136 | composite loop: repairs are one fewer than checks; when it gives up it has made exactly the budget of checks and holds the last failing text with its error |
| RepairLoops.RepairFirstTrace | jaiqu/jaiqu.py:52-61 | the fragment loop tries the candidates in order; all before the end failed; it passes exactly when a candidate within budget passes |
| RepairLoops.TestFirstTrace | jaiqu/jaiqu.py:67-76 | the same for the composite loop, which keeps the last candidate it checked |
| SchemaValidation.Analyse | jaiqu/jaiqu.py:12-28 | one record per property, in order, with that property's answer; valid exactly when every required property got a key |
| SchemaValidation.ValidateSchema | jaiqu/jaiqu.py:8-30 | the result keys equal the schema's property names; `identified`, `key`, `message`, descriptor and `required` come from the model's answer and the `required` list; invalid exactly when a record is required and unidentified |
| SchemaValidation.OptionalPropertiesNeverBlock | jaiqu/jaiqu.py:11-28 | model answers that agree on the required properties give the same verdict; a schema requiring nothing is always valid |
| SchemaValidation.UnsatisfiableByProperty | jaiqu/jaiqu.py:23-26 | the verdict is false exactly when a required schema property got no key from the model |
| Fragments.VerifiedKeys | jaiqu/jaiqu.py:63 | a key enters `filter_query` only from a property whose fragment went through the repair loop |
| Fragments.VerifiedHasLooped | jaiqu/jaiqu.py:63 | a verified fragment is stored under its property's name |
| Fragments.VerifiedKeysInOrder | jaiqu/jaiqu.py:46-63 | when step i is for the i-th key, the kept keys are some of those keys in their order |
| Fragments.SkippedAreNotKept | jaiqu/jaiqu.py:47-50 | with distinct keys, a skipped property has no kept fragment |
| Fragments.CallsOfLastStep | jaiqu/jaiqu_burr_straight_port.py:61-81 | skipped properties cost no checks or repairs |
| Jaiqu.SynthesiseFragments | jaiqu/jaiqu.py:43-63 | every loop is the fragment loop run from its property's fragment with the shared counter where the earlier steps left it; at most one step per identified property, one for each when the phase completes; `filter_query` holds exactly the verified fragments; the shared counter grows by the repairs made; on completion it stays within the bound, otherwise it passed it by exactly one |
| Jaiqu.SharedCounterAt | jaiqu/jaiqu.py:41-63 | by index: step i, if it looped, ran the fragment loop with the counter at its start value plus the repairs of steps 0..i-1 |
| Jaiqu.SharedLoopSearch | jaiqu/jaiqu.py:52-63 | a fragment loop passes exactly when one of the candidates it may check with the shared counter where it found it runs under jq |
| Jaiqu.SynthesisStepsFor | jaiqu/jaiqu.py:46-63 | step i handles identified property i; it is skipped exactly when its fragment is "None"; a loop starts from the model's fragment, and a fragment it kept passed the check |
| Jaiqu.SynthesisStepsSucceed | jaiqu/jaiqu.py:52-63 | a completed phase handled every identified property and every step succeeded; otherwise every step but the last succeeded and the last raised |
| Jaiqu.TranslateSchema | jaiqu/jaiqu.py:33-78 | raises `SchemaUnsatisfiable` with the analysis exactly when the analysis rejects the schema, otherwise only `RetriesExhausted(max_retries)`; the fragment phase runs on the identified records with the counter at zero; the composite loop runs exactly when the schema is satisfiable and the phase completed, from the assembled filter with the counter the phase left; then the run returns exactly when a candidate within the remaining budget validates, and what it returns is the text of that passing loop, after every fragment step succeeded |
| Jaiqu.UnsatisfiableStopsBeforeSynthesis | jaiqu/jaiqu.py:36-39 | the run raises the unsatisfiable-schema error exactly when a required property has no key, and it has then synthesised, compiled and repaired nothing |
| Jaiqu.AnalysisKeysDistinct | jaiqu/jaiqu.py:12-22 | distinct property names give distinct record keys |
| Jaiqu.OnlyIdentifiedAreSynthesised | jaiqu/jaiqu.py:41-47 | fragment steps follow the identified properties in order, and cover all of them when the phase completes |
| Jaiqu.IdentifiedHaveKeys | jaiqu/jaiqu.py:12-22 | every identified record belongs to a schema property for which the model named a key |
| Jaiqu.SynthesisedPropertiesHaveKeys | jaiqu/jaiqu.py:41-47 | every fragment step is for a schema property for which the model named a key |
| Jaiqu.NoneFragmentsAreDropped | jaiqu/jaiqu.py:47-50 | a step is skipped exactly when its fragment is "None"; no loop starts from "None"; a skipped property is absent from `filter_query` |
| Jaiqu.SharedRetryBudget | jaiqu/jaiqu.py:43-76 | the counter equals the failed checks of all loops together; a returning run met at most max(0, max_retries) of them, a run exhausting retries met exactly one more, and repairs are at most max(0, max_retries)+1 |
| Jaiqu.ReturnedFilterIsValidated | jaiqu/jaiqu.py:65-78 | a returned filter ran, had a first result that passed schema validation, and is the assembled filter after the repairs made |
| Jaiqu.FilterFollowsDeclarationOrder | jaiqu/jaiqu.py:41-65 | the assembled filter's keys are schema property names in declaration order |
| Jaiqu.RejectedFragmentsNeverComplete | jaiqu/jaiqu.py:52-61 | if jq rejects everything and some fragment is not "None", the fragment phase cannot complete |
| Jaiqu.AlwaysFailingFragments | jaiqu/jaiqu.py:52-61 | then the run raises before the composite loop, after exactly max(0, max_retries)+1 repairs |
| Burr.Targets | jaiqu/jaiqu_burr_granular.py:171-181 | a target is offered exactly when some row leaves the action with that target and a condition that holds |
| Granular.ValidateSchemaStep | jaiqu/jaiqu_burr_granular.py:14-54 | records the first unrecorded property by appending its record; nothing else changes; `valid_schema` is set to `Some`: false exactly when that one property is required and unidentified, true otherwise; when all are recorded it sets both flags true and nothing else |
| Granular.NextAfterRecorded | jaiqu/jaiqu_burr_granular.py:21-26 | with the first n properties recorded, the next property handled is number n |
| Granular.SchemaRoundRecordsNext | jaiqu/jaiqu_burr_granular.py:34-54 | one more run records property n with the single-pass record and sets `schema_processed` false |
| Granular.SchemaRoundKeepsInvariant | jaiqu/jaiqu_burr_granular.py:14-54 | one more run keeps the first properties recorded in order and touches only the schema fields |
| Granular.SchemaRoundsRecordInOrder | jaiqu/jaiqu_burr_granular.py:14-54 | after n runs exactly the first n properties are recorded, in order, with the single-pass records; only the three written fields changed |
| Granular.SchemaRoundsMatchAnalysis | jaiqu/jaiqu_burr_granular.py:14-54 | after one run per property plus one, the records equal the single-pass analysis, `schema_processed` is true and `valid_schema` is the single-pass verdict |
| Granular.AsWrittenDiffersOnlyInVerdict | jaiqu/jaiqu_burr_granular.py:14-54 | the runs as written and the accumulating runs keep the same schema, records and `schema_processed` after any number of runs, because no run reads `valid_schema` back |
| Granular.AsWrittenFinalVerdictIsTrue | jaiqu/jaiqu_burr_granular.py:19-54 | as written, one run per property plus one leaves the single-pass records and `schema_processed` true, yet `valid_schema` is true and no route to `error_state` is offered, whatever the single-pass verdict |
| Granular.FinalSchemaVerdictIsTrue | jaiqu/jaiqu_burr_granular.py:27-32 | as written, the final run sets `valid_schema` true and offers no route to `error_state` |
| Granular.UnsatisfiableSchemaPassesAsWritten | jaiqu/jaiqu_burr_granular.py:19-47 | for a schema requiring `id` when no key is found, the as-written runs leave `valid_schema` true and offer no error; the accumulating runs report false and offer `error_state` |
| Granular.CreateJqFilterQueryStep | jaiqu/jaiqu_burr_granular.py:62-101 | handles the first identified property with no entry; "None" is recorded as `None` without checks; for any other fragment the step keeps one exactly when some candidate within `max(1, max_retries)` runs, and keeps the first candidate that runs, every earlier one having failed, appending it and clearing `max_retries_hit`; a failure names the property, sets the flag, clears `jq_filter` after exactly the budget of checks and repairs; `filters_created` is set exactly when none is left; nothing else changes |
| Granular.AlwaysFailingFragmentStep | jaiqu/jaiqu_burr_granular.py:87-98 | if jq rejects everything, a non-"None" fragment costs exactly max(1, max_retries) checks and repairs and reports its property |
| Granular.FinalizeFilter | jaiqu/jaiqu_burr_granular.py:105-110 | as written: the filter is assembled from exactly the entries whose value is `None`, all of them, in their `filter_query` order, each printed `None`; only `jq_filter` changes |
| Granular.FinalizeDropsEveryFragment | jaiqu/jaiqu_burr_granular.py:107-108 | with no skipped property the as-written filter is `{  }` whatever was verified |
| Granular.KeptFragments | jaiqu/jaiqu_burr_granular.py:107 | the verified entries of `filter_query`, all of them and only them, in order |
| Granular.KeptFilterHoldsEachFragment | jaiqu/jaiqu_burr_granular.py:107-108 | every verified fragment appears in the corrected filter as `"key": fragment` |
| Granular.FinalizeCounterexample | jaiqu/jaiqu_burr_granular.py:107-108 | with `.id` verified for `id`, the as-written filter is `{  }` |
| Granular.FinalizeCorrectedOnCounterexample | jaiqu/jaiqu_burr_granular.py:107-108 | from the same map the corrected filter is `{ "id": .id }` |
| Granular.ValidateJsonStep | jaiqu/jaiqu_burr_granular.py:117-138 | repairs are one fewer than checks, at most max(1, max_retries); success gives an accepted `complete_filter` and clears `max_retries_hit`; failure sets the flag after exactly max(1, max_retries) checks and keeps a failing filter; nothing else changes |
| Granular.ValidateJsonSearch | jaiqu/jaiqu_burr_granular.py:123-137 | success exactly when one of the first max(1, max_retries) candidates is accepted; the kept filter is the candidate reached, and every candidate before it was rejected, so on success it is the first accepted one |
| Granular.SchemaRoutes | jaiqu/jaiqu_burr_granular.py:172-174 | after `validate_schema`: itself exactly when `schema_processed` is false, `create_jq_filter_query` exactly when true, `error_state` exactly when `valid_schema` is false |
| Granular.CreateRoutes | jaiqu/jaiqu_burr_granular.py:175-177 | after `create_jq_filter_query`: itself exactly when `filters_created` is false, `finalize_filter` exactly when true, `error_state` exactly when `max_retries_hit` is true |
| Granular.FinalizeRoutes | jaiqu/jaiqu_burr_granular.py:178 | `finalize_filter` always goes to `validate_json` and nowhere else |
| Granular.ValidateJsonRoutes | jaiqu/jaiqu_burr_granular.py:179-180 | after `validate_json`: `good_result` always, `error_state` exactly when `max_retries_hit` is true |
| Granular.SchemaStepRouting | jaiqu/jaiqu_burr_granular.py:172-174 | after a run, the table loops back exactly while a property was left, moves on exactly when none was, and offers `error_state` only alongside the loop |
| Granular.CreateStepRouting | jaiqu/jaiqu_burr_granular.py:175-177 | after a run, the table loops back exactly while a property was left; a failed fragment is offered both `error_state` and the loop; a verified fragment is never offered `error_state` |
| Granular.ValidateJsonStepRouting | jaiqu/jaiqu_burr_granular.py:179-180 | after a run `good_result` is always offered; `error_state` is offered exactly when validation gave up |
| StraightPort.ValidateSchemaStep | jaiqu/jaiqu_burr_straight_port.py:15-43 | one record per property, in declaration order, holding the model's key, its reasoning, the descriptor and the `required` flag; `valid_schema` false exactly when a required property got no key; only `schema_properties` and `valid_schema` change |
| StraightPort.CollectFragments | jaiqu/jaiqu_burr_straight_port.py:61-83 | at most one step per identified property, one for each when the phase completes; the kept fragments are exactly the verified ones |
| StraightPort.CollectStepsFor | jaiqu/jaiqu_burr_straight_port.py:61-83 | step i handles identified property i and is skipped exactly when its fragment is "None"; a loop starts from the model's fragment |
| StraightPort.CollectStepsSucceed | jaiqu/jaiqu_burr_straight_port.py:69-81 | a completed phase handled every property and every step succeeded; otherwise every step but the last succeeded and the last gave up |
| StraightPort.CollectFreshCounters | jaiqu/jaiqu_burr_straight_port.py:69-81 | every property's loop starts with its counter at zero, whatever earlier properties cost |
| StraightPort.CreateJqFilterQueryStep | jaiqu/jaiqu_burr_straight_port.py:50-88 | succeeds exactly when the fragment phase over the identified properties completes, and then writes the filter of the kept fragments and clears `max_retries_hit`; otherwise the phase stopped at its first failing loop, every earlier property succeeded, and the error names the identified property of that loop, sets the flag and clears `jq_filter`; the counts are those of the loops run; nothing else changes |
| StraightPort.KeptExactlyWhenNotNone | jaiqu/jaiqu_burr_straight_port.py:61-83 | in a completed phase, with distinct names, a property is kept exactly when its fragment is not "None" |
| StraightPort.CreatedFilterHoldsVerifiedFragments | jaiqu/jaiqu_burr_straight_port.py:83-87 | on success the filter is `dict_to_jq_filter` of the kept fragments, which are identified keys in order, kept exactly when their fragment is not "None", each of which ran |
| StraightPort.VerifiedPass | jaiqu/jaiqu_burr_straight_port.py:72-83 | every kept fragment passed the fragment check |
| StraightPort.RejectedPhase | jaiqu/jaiqu_burr_straight_port.py:61-81 | if jq rejects everything, the phase stops at the first non-"None" property after exactly max(1, max_retries) checks and repairs |
| StraightPort.AlwaysFailingFragmentsName | jaiqu/jaiqu_burr_straight_port.py:69-81 | then the error names that property and `max_retries_hit` is set, with exactly max(1, max_retries) repairs |
| StraightPort.ValidateJsonStep | jaiqu/jaiqu_burr_straight_port.py:95-119 | `max_retries_hit` is the negation of `valid_json`; valid exactly on an accepted filter; otherwise exactly max(1, max_retries) checks and a failing filter; repairs one fewer than checks; nothing else changes |
| StraightPort.ValidateJsonSearch | jaiqu/jaiqu_burr_straight_port.py:101-117 | `valid_json` is true exactly when one of the first max(1, max_retries) candidates is accepted; the kept filter is the candidate reached, and every candidate before it was rejected, so on success it is the first accepted one |
| StraightPort.SchemaRoutes | jaiqu/jaiqu_burr_straight_port.py:152-158 | after `validate_schema` the table always offers `create_jq_filter_query`, `good_result` exactly when `valid_schema` is true, `error_state` exactly when false, and nothing else |
| StraightPort.CreateRoutes | jaiqu/jaiqu_burr_straight_port.py:153-154 | after `create_jq_filter_query`: `validate_json` exactly when `max_retries_hit` is false, `error_state` exactly when true, nothing else |
| StraightPort.ValidateJsonRoutes | jaiqu/jaiqu_burr_straight_port.py:155-156 | after `validate_json`: `good_result` exactly when `valid_json` is true, `error_state` exactly when false, nothing else |
| StraightPort.SchemaStepRouting | jaiqu/jaiqu_burr_straight_port.py:152-158 | after `validate_schema`: `create_jq_filter_query` always, `good_result` exactly when valid, `error_state` exactly when invalid |
| StraightPort.CreateStepRouting | jaiqu/jaiqu_burr_straight_port.py:153-154 | after `create_jq_filter_query`: exactly one target, `validate_json` on success and `error_state` on failure |
| StraightPort.ValidateJsonStepRouting | jaiqu/jaiqu_burr_straight_port.py:155-156 | after `validate_json`: exactly one target, `good_result` when validated and `error_state` when it gave up |
| StraightPort.CreateFeedsValidateJson | jaiqu/jaiqu_burr_straight_port.py:86-97 | whenever the table offers `validate_json`, a filter is in `jq_filter` for it to read |

`jaiqu/jaiqu_burr.py` repeats the straight port's three actions line for line: `validate_schema` at lines 19-47, `create_jq_filter_query` at 53-90 and `validate_json` at 96-120. The `StraightPort` rows therefore describe that file too.

Notes on the transition tables:

- The granular table lists the self-loop rows before the `error_state` rows.
  - After `validate_schema` records a required property with no key, the table offers both `validate_schema` and `error_state`.
  - After a failed fragment, it offers both `create_jq_filter_query` and `error_state`.
- The straight table lists `default` to `create_jq_filter_query` first.
  - It offers that target even when the schema was found unsatisfiable.
- Which of several offered targets Burr takes is decided by the framework, which is not part of this model.

## Findings

| source | as written | input that shows it | evidently intended | confidence | as-written member | corrected member |
|---|---|---|---|---|---|---|
| jaiqu/jaiqu_burr_granular.py:107-108 | `finalize_filter` keeps the entries whose value is `None` and passes them to `dict_to_jq_filter` | `filter_query = {"id": ".id"}` gives the filter `{  }`, dropping the verified fragment | keep the entries whose value is not `None`, giving `{ "id": .id }` | medium, not executed | Granular.FinalizeCounterexample | Granular.KeptFilterHoldsEachFragment |
| jaiqu/jaiqu_burr_granular.py:19-47 | `valid` is reset to `True` in every run of `validate_schema`, so `valid_schema` reflects only the one property handled and is set `True` on the final run | schema with `id` required and a model that finds no key: after two runs `valid_schema` is `True` and the table offers no `error_state` | `valid_schema` false whenever any recorded required property is unidentified, as in the single-pass `validate_schema` | medium, not executed | Granular.UnsatisfiableSchemaPassesAsWritten | Granular.SchemaRoundsMatchAnalysis |

## Left out

- Calls to the language model, jq and `jsonschema` are oracle parameters.
  - Prompt text, model names and the OpenAI client are left out.
  - The source's `identify_key` returns one string, but its callers unpack a pair. `repair_query` takes three parameters, but the Burr ports pass four. Each oracle takes the shape its callers use.
- The record's `**value` spread is kept as a separate `descriptor` field. A schema descriptor with its own `identified`, `key` or `message` field, which would be overwritten, is not modelled.
- `str.lower` is modelled for ASCII letters only. Unicode case mapping is left out.
- JSON numbers are integers. Floating point is left out.
- Exceptions carry structured errors instead of their formatted text.
  - `RetriesExhausted` and `SchemaUnsatisfiable` in `Jaiqu`.
  - `FragmentError` and `ValidationError` in `Burr`.
  - The JSON dump of the analysis in the unsatisfiable-schema message is kept as the records themselves.
- The Burr framework itself is left out. This covers `ApplicationBuilder`, `app.run`, the tracker, `visualize`, the `Result` actions and the choice among several matching rows. So is each port's `translate_schema`, which only runs the application and reads `complete_filter`.
- The table in the `__main__` block of `jaiqu/jaiqu_burr.py` is left out. It conditions a row on `'exit' in question`, a state field no action writes; that module's actions are modelled through the straight port.
- `tqdm` progress bars, `jaiqu/cli.py`, `streamlit_app.py` and `jaiqu/__init__.py` are left out. They are presentation, I/O and client setup.
- The schema is assumed to carry both `properties` and `required`. The source indexes both keys directly (jaiqu/jaiqu.py:12,23; jaiqu/jaiqu_burr_granular.py:22,44; jaiqu/jaiqu_burr_straight_port.py:22,34), so a schema without `required` raises `KeyError` there; that path is not modelled. A schema "that requires nothing" (SchemaValidation.OptionalPropertiesNeverBlock) is one with an empty `required` list.
- The schema's property names are distinct because they come from a JSON object. Lemmas about keys in the filter assume this: `WellFormed` and `DistinctKeys`.
- Granular.ValidateJsonStep: requires a string in `jq_filter`. It runs only after `finalize_filter` wrote one; jq on `None` is not modelled.
- StraightPort.ValidateJsonStep: requires a string in `jq_filter`. The table reaches it only after a successful `create_jq_filter_query` (StraightPort.CreateFeedsValidateJson).
