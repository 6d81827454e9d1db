/**
 * The field schema registry: the two ordered groups of field definitions
 * (loaded once from `fields.json`) and the closed set of document types.
 */
module Schema {

  /** The document type a file is sorted into; UNKNOWN ends the processing of a file. */
  datatype DocType = Agreement | License | Unknown {

    /** The spelling used in the model replies, the outcome log and the request builder. */
    function Name(): string {
      match this
      case Agreement => "AGREEMENT"
      case License => "LICENSE"
      case Unknown => "UNKNOWN"
    }
  }

  /** One entry of `license_fields` or `agreement_fields`. */
  datatype FieldDef = FieldDef(name: string, description: string, example: string, valueType: string, required: bool)

  datatype FieldSchema = FieldSchema(licenseFields: seq<FieldDef>, agreementFields: seq<FieldDef>)

  /** The group a document type selects: LICENSE selects the license fields, every other type the agreement fields. */
  function Group(schema: FieldSchema, docType: DocType): seq<FieldDef> {
    if docType == License then schema.licenseFields else schema.agreementFields
  }

  /** The field names of a group, in schema order. */
  function Names(fields: seq<FieldDef>): (r: seq<string>)
    ensures |r| == |fields| && forall i :: 0 <= i < |fields| ==> r[i] == fields[i].name
  {
    seq(|fields|, i requires 0 <= i < |fields| => fields[i].name)
  }

  /** Some field of the group is called `n`. */
  predicate Named(fields: seq<FieldDef>, n: string) {
    exists i :: 0 <= i < |fields| && fields[i].name == n
  }

  predicate UniqueNames(fields: seq<FieldDef>) {
    forall i, j :: 0 <= i < j < |fields| ==> fields[i].name != fields[j].name
  }

  /** The names of the required fields, in schema order. */
  function RequiredNames(fields: seq<FieldDef>): (r: seq<string>)
    ensures |r| <= |fields|
    ensures forall n :: n in r <==> exists i :: 0 <= i < |fields| && fields[i].required && fields[i].name == n
  {
    if |fields| == 0 then []
    else
      var front := fields[..|fields| - 1];
      var last := fields[|fields| - 1];
      var r := RequiredNames(front) + (if last.required then [last.name] else []);
      assert forall i :: 0 <= i < |front| ==> front[i] == fields[i];
      r
  }

  /** The required names of concatenated groups are those of each group, in order. */
  lemma {:induction false} RequiredNamesAppend(a: seq<FieldDef>, b: seq<FieldDef>)
    ensures RequiredNames(a + b) == RequiredNames(a) + RequiredNames(b)
  {
    if |b| == 0 {
      assert a + b == a;
    } else {
      var front := b[..|b| - 1];
      assert (a + b)[..|a + b| - 1] == a + front;
      RequiredNamesAppend(a, front);
    }
  }

  /** A single field contributes its name exactly when it is required. */
  lemma RequiredNamesOne(f: FieldDef)
    ensures RequiredNames([f]) == if f.required then [f.name] else []
  {
    assert [f][..0] == [];
  }
}
