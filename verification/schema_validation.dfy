/**
 * Schema-satisfiability analysis (`validate_schema` in jaiqu/jaiqu.py, and the
 * identical action of the two Burr ports): ask the model, property by property in
 * declaration order, which input key corresponds to it; record the answer; and
 * declare the schema unsatisfiable when some required property found no key.
 */
module SchemaValidation {
  import opened Wrappers
  import opened OrderedMaps
  import opened Types

  /** The per-property records and the overall verdict. */
  datatype Analysis = Analysis(results: OMap<PropertyResult>, valid: bool)

  /**
   * The record for one property: `identified` when the model named a key, the key
   * and reasoning it gave, the property's descriptor, and whether the schema's
   * `required` list names the property.
   */
  function MakeRecord(o: Oracles, required: seq<string>, name: string, descriptor: Json): PropertyResult
  {
    var answer := o.identifyKey(name, descriptor);
    PropertyResult(answer.key.Some?, answer.key, answer.reasoning, descriptor, name in required)
  }

  /** The loop of `validate_schema` over `props`, with `valid` starting true and cleared by a required, unidentified property. */
  function Analyse(o: Oracles, required: seq<string>, props: OMap<Json>): (an: Analysis)
    ensures |an.results| == |props|
    ensures forall i :: 0 <= i < |props| ==> an.results[i].0 == props[i].0
    ensures forall i :: 0 <= i < |props| ==> an.results[i].1 == MakeRecord(o, required, props[i].0, props[i].1)
    ensures an.valid <==>
      forall i :: 0 <= i < |props| && props[i].0 in required ==> o.identifyKey(props[i].0, props[i].1).key.Some?
  {
    if |props| == 0 then Analysis([], true)
    else
      var record := MakeRecord(o, required, props[0].0, props[0].1);
      var rest := Analyse(o, required, props[1..]);
      var valid := rest.valid && !(record.required && !record.identified);
      var results := [(props[0].0, record)] + rest.results;
      assert forall i :: 1 <= i < |props| ==> props[i] == props[1..][i - 1] && results[i] == rest.results[i - 1];
      Analysis(results, valid)
  }

  /**
   * `validate_schema`: one record per schema property, in declaration order, with
   * `identified` exactly when the model returned a key, that key and its reasoning,
   * the property's descriptor and its `required` flag; the verdict is false exactly
   * when some required property was not identified.
   */
  function ValidateSchema(o: Oracles, schema: OutputSchema): (an: Analysis)
    ensures Keys(an.results) == Keys(schema.properties)
    ensures forall i :: 0 <= i < |an.results| ==>
      var (name, descriptor) := schema.properties[i];
      var answer := o.identifyKey(name, descriptor);
      && an.results[i].1.identified == answer.key.Some?
      && an.results[i].1.key == answer.key
      && an.results[i].1.message == answer.reasoning
      && an.results[i].1.descriptor == descriptor
      && an.results[i].1.required == (name in schema.required)
    ensures !an.valid <==> exists i :: 0 <= i < |an.results| && an.results[i].1.required && !an.results[i].1.identified
  {
    Analyse(o, schema.required, schema.properties)
  }

  /**
   * Optional properties never decide the verdict: two runs whose model answers
   * agree, on every required property, about whether a key was found reach the
   * same verdict; in particular a schema that requires nothing is always satisfiable.
   */
  lemma OptionalPropertiesNeverBlock(o1: Oracles, o2: Oracles, schema: OutputSchema)
    requires forall i :: 0 <= i < |schema.properties| && schema.properties[i].0 in schema.required ==>
      o1.identifyKey(schema.properties[i].0, schema.properties[i].1).key.Some? ==
      o2.identifyKey(schema.properties[i].0, schema.properties[i].1).key.Some?
    ensures ValidateSchema(o1, schema).valid == ValidateSchema(o2, schema).valid
    ensures |schema.required| == 0 ==> ValidateSchema(o1, schema).valid
  {
    var a1 := ValidateSchema(o1, schema);
    var a2 := ValidateSchema(o2, schema);
    if !a1.valid {
      var i :| 0 <= i < |a1.results| && a1.results[i].1.required && !a1.results[i].1.identified;
      assert a2.results[i].1.required && !a2.results[i].1.identified;
    }
    if !a2.valid {
      var i :| 0 <= i < |a2.results| && a2.results[i].1.required && !a2.results[i].1.identified;
      assert a1.results[i].1.required && !a1.results[i].1.identified;
    }
  }
  /** The verdict in terms of the schema and the model's answers: false exactly when a required property got no key. */
  lemma UnsatisfiableByProperty(o: Oracles, schema: OutputSchema)
    ensures !ValidateSchema(o, schema).valid <==>
      exists i :: 0 <= i < |schema.properties| && schema.properties[i].0 in schema.required &&
        o.identifyKey(schema.properties[i].0, schema.properties[i].1).key == None
  {
    var an := ValidateSchema(o, schema);
    assert |an.results| == |Keys(schema.properties)|;
    if !an.valid {
      var i :| 0 <= i < |an.results| && an.results[i].1.required && !an.results[i].1.identified;
      assert schema.properties[i].0 in schema.required;
    }
  }
}
