/**
 * The request side of `ollamaClient`: the `format` schema built from the field
 * groups, the request body, and the shape of the value handed back. The HTTP
 * transport is a parameter, a function from request to decoded reply
 * (`None` when posting or decoding the reply fails).
 */
module OllamaClient {
  import opened Wrappers
  import opened Schema

  const CLASSIFY: string := "CLASSIFY"
  const NO_ANSWER: string := "Keine Antwort erhalten"

  /**
   * The `format` JSON schema `{"type": "object", "properties": ..., "required": ...}`;
   * a property `name: {"type": t}` is kept as `name := t`.
   */
  datatype FormatSchema = FormatSchema(properties: map<string, string>, required: seq<string>)

  /** The body posted to the generate endpoint; `format` is absent when `None`. */
  datatype Request = Request(model: string, prompt: string, stream: bool, format: Option<FormatSchema>)

  /** The decoded reply of the endpoint; `response` is `None` when the reply has no such field. */
  datatype Envelope = Envelope(response: Option<string>)

  /** `properties[field_name] = {"type": field_type}` over the fields in order: every field name is a key. */
  function PropertiesOf(fields: seq<FieldDef>): (m: map<string, string>)
    ensures forall n :: n in m <==> Named(fields, n)
  {
    if |fields| == 0 then map[]
    else
      var front := fields[..|fields| - 1];
      var last := fields[|fields| - 1];
      var m := PropertiesOf(front)[last.name := last.valueType];
      assert forall i :: 0 <= i < |front| ==> front[i] == fields[i];
      m
  }

  lemma UniqueFront(fields: seq<FieldDef>)
    requires |fields| > 0 && UniqueNames(fields)
    ensures UniqueNames(fields[..|fields| - 1])
    ensures !Named(fields[..|fields| - 1], fields[|fields| - 1].name)
  {
    var front := fields[..|fields| - 1];
    assert forall i :: 0 <= i < |front| ==> front[i] == fields[i];
  }

  /** With unique names (the registry's invariant) there is one property per field. */
  lemma {:induction false} PropertiesCount(fields: seq<FieldDef>)
    requires UniqueNames(fields)
    ensures |PropertiesOf(fields)| == |fields|
  {
    if |fields| > 0 {
      var front := fields[..|fields| - 1];
      var last := fields[|fields| - 1];
      UniqueFront(fields);
      PropertiesCount(front);
      assert last.name !in PropertiesOf(front);
    }
  }

  /** With unique names every field is mapped to its own type. */
  lemma {:induction false} PropertiesTyped(fields: seq<FieldDef>, i: nat)
    requires UniqueNames(fields)
    requires i < |fields|
    ensures PropertiesOf(fields)[fields[i].name] == fields[i].valueType
  {
    var front := fields[..|fields| - 1];
    if i < |front| {
      UniqueFront(fields);
      assert fields[i] == front[i];
      assert Named(front, front[i].name);
      PropertiesTyped(front, i);
    }
  }

  /**
   * The schema chosen by `doc_type`: a field group keyed by its field names, the single
   * `doc_type` string, or nothing; every required name is a property.
   */
  function SchemaFor(docType: string, schema: FieldSchema): (s: FormatSchema)
    ensures forall n :: n in s.required ==> n in s.properties
    ensures docType == "LICENSE" ==> forall n :: n in s.properties <==> Named(schema.licenseFields, n)
    ensures docType == "AGREEMENT" ==> forall n :: n in s.properties <==> Named(schema.agreementFields, n)
    ensures docType == CLASSIFY ==> s.properties.Keys == {"doc_type"} && s.required == ["doc_type"]
    ensures docType != "LICENSE" && docType != "AGREEMENT" && docType != CLASSIFY ==>
      s.properties == map[] && s.required == []
  {
    if docType == "LICENSE" then
      FormatSchema(PropertiesOf(schema.licenseFields), RequiredNames(schema.licenseFields))
    else if docType == "AGREEMENT" then
      FormatSchema(PropertiesOf(schema.agreementFields), RequiredNames(schema.agreementFields))
    else if docType == CLASSIFY then
      FormatSchema(map["doc_type" := "string"], ["doc_type"])
    else
      FormatSchema(map[], [])
  }

  /** The request body: never streamed, carrying the model and prompt, with `format` only for a non-empty schema. */
  function RequestFor(prompt: string, model: string, docType: string, schema: FieldSchema): (req: Request)
    ensures req.model == model && req.prompt == prompt && !req.stream
    ensures req.format.Some? <==> |SchemaFor(docType, schema).properties| > 0
    ensures req.format.Some? ==> req.format.value == SchemaFor(docType, schema)
  {
    var format := SchemaFor(docType, schema);
    Request(model, prompt, false, if |format.properties| > 0 then Some(format) else None)
  }

  /**
   * For LICENSE and AGREEMENT the properties are keyed by exactly the group's field names
   * and `required` lists the required names in schema order; `format` is sent iff the
   * group has a field.
   */
  lemma GroupRequest(prompt: string, model: string, docType: DocType, schema: FieldSchema)
    requires docType != Unknown
    ensures var req := RequestFor(prompt, model, docType.Name(), schema);
      var fields := Group(schema, docType);
      && (req.format.Some? <==> |fields| > 0)
      && (req.format.Some? ==>
            && (forall n :: n in req.format.value.properties <==> Named(fields, n))
            && req.format.value.required == RequiredNames(fields))
  {
    var fields := Group(schema, docType);
    if |fields| > 0 {
      assert fields[0].name in PropertiesOf(fields);
    }
  }

  /** Classification asks for exactly one string property `doc_type`, which is required. */
  lemma ClassifyRequest(prompt: string, model: string, schema: FieldSchema)
    ensures RequestFor(prompt, model, CLASSIFY, schema).format ==
      Some(FormatSchema(map["doc_type" := "string"], ["doc_type"]))
  {
    assert "doc_type" in map["doc_type" := "string"];
  }

  /** Any other `doc_type` sends no `format` at all. */
  lemma OtherRequest(prompt: string, model: string, docType: string, schema: FieldSchema)
    requires docType != "LICENSE" && docType != "AGREEMENT" && docType != CLASSIFY
    ensures RequestFor(prompt, model, docType, schema).format == None
  {
  }

  /** The property loop over one field group, as the source writes it for LICENSE and for AGREEMENT. */
  method CollectFields(fields: seq<FieldDef>) returns (properties: map<string, string>, required: seq<string>)
    ensures properties == PropertiesOf(fields) && required == RequiredNames(fields)
  {
    properties, required := map[], [];
    for i := 0 to |fields|
      invariant properties == PropertiesOf(fields[..i])
      invariant required == RequiredNames(fields[..i])
    {
      assert fields[..i + 1][..i] == fields[..i];
      var field := fields[i];
      properties := properties[field.name := field.valueType];
      if field.required {
        required := required + [field.name];
      }
    }
    assert fields[..|fields|] == fields;
  }

  method BuildRequest(prompt: string, model: string, docType: string, schema: FieldSchema) returns (req: Request)
    ensures req == RequestFor(prompt, model, docType, schema)
  {
    var properties: map<string, string> := map[];
    var required: seq<string> := [];
    if docType == "LICENSE" {
      properties, required := CollectFields(schema.licenseFields);
    } else if docType == "AGREEMENT" {
      properties, required := CollectFields(schema.agreementFields);
    } else if docType == CLASSIFY {
      properties := map["doc_type" := "string"];
      required := required + ["doc_type"];
      assert "doc_type" in properties;
    }
    assert FormatSchema(properties, required) == SchemaFor(docType, schema);
    var format := FormatSchema(properties, required);
    if |properties| > 0 {
      req := Request(model, prompt, false, Some(format));
    } else {
      req := Request(model, prompt, false, None);
    }
  }

  /**
   * `ollamaClient(prompt, model, doc_type)`: `None` on any failure; otherwise the reply's
   * `response`, or the fixed default text when the reply has none.
   */
  method Generate(prompt: string, model: string, docType: string, schema: FieldSchema,
                  transport: Request -> Option<Envelope>) returns (r: Option<string>)
    ensures var reply := transport(RequestFor(prompt, model, docType, schema));
      && (reply.None? ==> r == None)
      && (reply.Some? && reply.value.response.Some? ==> r == reply.value.response)
      && (reply.Some? && reply.value.response.None? ==> r == Some(NO_ANSWER))
  {
    var req := BuildRequest(prompt, model, docType, schema);
    var reply := transport(req);
    if reply.None? {
      return None;
    }
    r := Some(reply.value.response.GetOr(NO_ANSWER));
  }
}
