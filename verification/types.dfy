/**
 * The data the pipeline works on and the external services it calls.
 *
 * The language model, the jq engine and the JSON Schema validator are not part
 * of this model: they appear as the fields of `Oracles`, total functions that
 * the model calls and never looks inside. The input document and the optional
 * key hints never change during a run, so the oracles are taken to have them
 * built in.
 */
module Types {
  import opened Wrappers
  import opened OrderedMaps

  /** A parsed JSON value: the input document, a schema fragment or a jq result. */
  datatype Json =
    | JNull
    | JBool(b: bool)
    | JNumber(n: int)
    | JString(s: string)
    | JArray(items: seq<Json>)
    | JObject(fields: seq<(string, Json)>)

  /**
   * The target schema as the pipeline reads it: `properties` (field name to its
   * descriptor, in declaration order) and the `required` list.
   */
  datatype OutputSchema = OutputSchema(properties: OMap<Json>, required: seq<string>)

  /** `properties` comes from a JSON object, so its field names are distinct. */
  predicate WellFormed(schema: OutputSchema)
  {
    DistinctKeys(schema.properties)
  }

  /**
   * The record kept for one schema property: whether the model found a
   * corresponding input key, that key, the model's reasoning, the property's own
   * descriptor and whether the schema requires the property.
   */
  datatype PropertyResult = PropertyResult(
    identified: bool,
    key: Option<string>,
    message: string,
    descriptor: Json,
    required: bool)

  predicate IsIdentified(p: PropertyResult)
  {
    p.identified
  }

  /** What `identify_key` hands back to its callers: a key or `None`, and the reasoning text. */
  datatype KeyAnswer = KeyAnswer(key: Option<string>, reasoning: string)

  /** `jq.compile(q).input(doc).all()`: the list of results, or the text of the exception raised. */
  datatype RunResult = Ran(results: seq<Json>) | RunFailed(error: string)

  /** The outcome of one check: it passed, or it raised an exception with this text. */
  datatype Verdict = Pass | Fail(error: string)

  /**
   * The external calls, at the shape their callers use them:
   * - `identifyKey(key, descriptor)`: the model's choice of input key for a schema property;
   * - `createJqString(key, record)`: the model's jq fragment for one identified property;
   * - `repairQuery(query, error)`: the model's corrected query;
   * - `compileRun(query)`: compiling the query with jq and running it on the input document;
   * - `validate(value)`: `jsonschema.validate` of a value against the target schema.
   */
  datatype Oracles = Oracles(
    identifyKey: (string, Json) -> KeyAnswer,
    createJqString: (string, PropertyResult) -> string,
    repairQuery: (string, string) -> string,
    compileRun: string -> RunResult,
    validate: Json -> Verdict)

  /** The exact text the fragment prompt asks the model to emit when a field should be skipped. */
  const NoneSentinel := "None"

  /** The text of the `IndexError` raised by `[0]` on an empty result list. */
  const IndexErrorText := "list index out of range"

  /** Check of one fragment: it must compile and run on the input without raising. */
  function FragmentCheck(o: Oracles, query: string): Verdict
  {
    match o.compileRun(query)
    case Ran(_) => Pass
    case RunFailed(e) => Fail(e)
  }

  /**
   * Check of the composite filter: it must compile and run, produce at least one
   * result, and its first result must pass schema validation.
   */
  function CompositeCheck(o: Oracles, query: string): Verdict
  {
    match o.compileRun(query)
    case RunFailed(e) => Fail(e)
    case Ran(results) =>
      if |results| == 0 then Fail(IndexErrorText) else o.validate(results[0])
  }

  /** A fragment passes exactly when jq compiles it and runs it without raising. */
  lemma FragmentCheckPasses(o: Oracles, query: string)
    ensures FragmentCheck(o, query) == Pass <==> o.compileRun(query).Ran?
  {
  }

  function FragmentChecker(o: Oracles): string -> Verdict
  {
    q => FragmentCheck(o, q)
  }

  function CompositeChecker(o: Oracles): string -> Verdict
  {
    q => CompositeCheck(o, q)
  }

  /** The composite filter passed: it ran, gave a first result, and that result is schema-valid. */
  predicate CompositeAccepted(o: Oracles, query: string)
  {
    && o.compileRun(query).Ran?
    && |o.compileRun(query).results| > 0
    && o.validate(o.compileRun(query).results[0]) == Pass
  }

  lemma CompositeCheckPasses(o: Oracles, query: string)
    ensures CompositeCheck(o, query) == Pass <==> CompositeAccepted(o, query)
  {
  }
}
