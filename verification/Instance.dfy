/** Instances of the information model, as far as exchange and filtering read them. */
module Instance {
  import opened Wrappers

  /** A JSON value; numbers and structured values are kept as the text they print as. */
  datatype JsonValue = JString(text: string) | JNumber(text: string) | JBool(flag: bool) | JOther(text: string)

  datatype Property = Property(name: string, value: Option<JsonValue>)

  datatype Security = Security(policy: Option<string>, classification: Option<string>, releasability: Option<string>)

  /** `payload` stands for the fields no operation here looks at (class id, associations, other metadata). */
  datatype MimInstance = MimInstance(
    oid: string,
    className: string,
    properties: seq<Property>,
    security: Security,
    payload: string)
  {
    /** The first property with the given name. */
    function GetProperty(name: string): (r: Option<Property>)
      ensures r.Some? ==> r.value in properties && r.value.name == name
      ensures r.None? ==> forall p :: p in properties ==> p.name != name
    {
      FindProperty(properties, name)
    }
  }

  function FindProperty(properties: seq<Property>, name: string): (r: Option<Property>)
    ensures r.Some? ==> r.value in properties && r.value.name == name
    ensures r.None? ==> forall p :: p in properties ==> p.name != name
  {
    if properties == [] then None
    else if properties[0].name == name then Some(properties[0])
    else FindProperty(properties[1..], name)
  }

  /** The first property of that name. */
  ghost predicate FirstNamed(properties: seq<Property>, name: string, k: int) {
    && 0 <= k < |properties| && properties[k].name == name
    && forall l :: 0 <= l < k ==> properties[l].name != name
  }

  lemma {:induction false} FoundIsFirst(properties: seq<Property>, name: string, k: int)
    requires FirstNamed(properties, name, k)
    ensures FindProperty(properties, name) == Some(properties[k])
  {
    if k == 0 {
    } else {
      assert FirstNamed(properties[1..], name, k - 1);
      FoundIsFirst(properties[1..], name, k - 1);
    }
  }

  lemma {:induction false} SomeIsFirst(properties: seq<Property>, name: string)
    ensures (exists k :: FirstNamed(properties, name, k)) <==> exists p :: p in properties && p.name == name
  {
    if properties == [] {
    } else {
      SomeIsFirst(properties[1..], name);
      if properties[0].name == name {
        assert FirstNamed(properties, name, 0);
      } else {
        if k :| FirstNamed(properties[1..], name, k) {
          assert FirstNamed(properties, name, k + 1);
        }
      }
    }
  }
}
