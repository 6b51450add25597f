/**
 * What the two Burr ports hand to the Burr framework: transition tables, and the
 * dictionaries their actions return.
 *
 * A table is a list of `(from, to, condition)` rows, where the condition is
 * `default` or `when(flag=value)` over one boolean state field. The model keeps
 * the table as data and asks only which rows match after an action; the rule by
 * which Burr picks one of several matching rows belongs to the framework.
 */
module Burr {
  import opened Wrappers
  import Types

  /** The boolean state fields the tables' conditions read, by their state key. */
  datatype Flag =
    | ValidSchema     // "valid_schema"
    | SchemaProcessed // "schema_processed"
    | FiltersCreated  // "filters_created"
    | MaxRetriesHit   // "max_retries_hit"
    | ValidJson       // "valid_json"

  /** `default`, or `when(flag=value)`. */
  datatype Condition = Default | When(flag: Flag, value: bool)

  /** The actions the ports register, by the names the tables use. */
  datatype Action =
    | ValidateSchemaAction      // "validate_schema"
    | CreateJqFilterQueryAction // "create_jq_filter_query"
    | FinalizeFilterAction      // "finalize_filter"
    | ValidateJsonAction        // "validate_json"
    | ErrorState                // "error_state"
    | GoodResult                // "good_result"

  datatype Transition = Transition(from: Action, to: Action, cond: Condition)

  /** The value of each flag in a state, or `None` when the state has no such field. */
  datatype Flags = Flags(validSchema: Option<bool>, schemaProcessed: Option<bool>, filtersCreated: Option<bool>,
                         maxRetriesHit: Option<bool>, validJson: Option<bool>)

  function Lookup(flags: Flags, f: Flag): Option<bool>
  {
    match f
    case ValidSchema => flags.validSchema
    case SchemaProcessed => flags.schemaProcessed
    case FiltersCreated => flags.filtersCreated
    case MaxRetriesHit => flags.maxRetriesHit
    case ValidJson => flags.validJson
  }

  /** `default` always matches; `when(flag=value)` matches a field that holds `value`. */
  predicate Holds(c: Condition, flags: Flags)
  {
    match c
    case Default => true
    case When(f, v) => Lookup(flags, f) == Some(v)
  }

  /**
   * The targets of the rows leaving `from` whose condition holds, in the order the
   * table lists them.
   */
  function Targets(table: seq<Transition>, from: Action, flags: Flags): (ts: seq<Action>)
    ensures forall t :: t in ts <==>
      exists i :: 0 <= i < |table| && table[i].from == from && table[i].to == t && Holds(table[i].cond, flags)
    ensures |ts| <= |table|
  {
    if |table| == 0 then []
    else
      var rest := Targets(table[1..], from, flags);
      assert forall i :: 1 <= i < |table| ==> table[i] == table[1..][i - 1];
      if table[0].from == from && Holds(table[0].cond, flags) then [table[0].to] + rest else rest
  }

  /** The dictionary an action returns, by the keys it holds. */
  datatype Message =
    | Records(records: seq<(string, Types.PropertyResult)>) // validate_schema: the property records
    | JqString(fragment: Option<string>)                    // granular create_jq_filter_query: the fragment kept, or None
    | Filter(filter: string)                                // the assembled filter
    | CompleteFilter(filter: string)                        // validate_json: the filter that passed
    | FragmentError(key: string, maxRetries: int)           // "Failed to create a valid jq filter for key '<key>' after <n> retries."
    | ValidationError(maxRetries: int)                      // "Failed to validate the jq filter after <n> retries."

  /** One action's run: the dictionary it returned, the state it left, and its calls of the check and repair oracles. */
  datatype Step<S> = Step(output: Message, state: S, checks: nat, repairs: nat)
}
