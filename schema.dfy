/** The note schema and the validator that walks it
    (`noteSchema` and `validateFields` in server/models/Note.js). */
module Schema {
  import opened Wrappers
  import opened JsValues

  /** One schema entry: the field name, the `typeof` the value must have,
      and whether a value is required. */
  datatype FieldSpec = FieldSpec(name: string, typ: string, required: bool)

  /** The note schema, in declaration order: the order the validator
      checks the fields in. */
  const NoteSchema: seq<FieldSpec> := [
    FieldSpec("title", "string", true),
    FieldSpec("content", "string", true),
    FieldSpec("created_at", "string", false),
    FieldSpec("updated_at", "string", false)
  ]

  /** The field names of the note schema. */
  const NoteFields: set<string> := {"title", "content", "created_at", "updated_at"}

  /** The field names are exactly the names the schema table declares. */
  lemma NoteFieldNames()
    ensures NoteFields == set j | 0 <= j < |NoteSchema| :: NoteSchema[j].name
  {
    var declared := set j | 0 <= j < |NoteSchema| :: NoteSchema[j].name;
    assert NoteSchema[0].name in declared && NoteSchema[1].name in declared;
    assert NoteSchema[2].name in declared && NoteSchema[3].name in declared;
  }

  /** The two ways a field can be rejected. */
  datatype ValidationError = Required(field: string) | WrongType(field: string, typ: string)

  /** The message of the `Error` thrown for a rejected field. */
  function Message(e: ValidationError): string
  {
    match e
    case Required(f) => f + " is required."
    case WrongType(f, t) => f + " must be a " + t + "."
  }

  /** The checks made on one field, in their order: the required check
      first, then the type check of a defined value. */
  function CheckField(spec: FieldSpec, v: Value): Option<ValidationError>
  {
    if spec.required && !Truthy(v) then Some(Required(spec.name))
    else if v != Undefined && TypeOf(v) != spec.typ then Some(WrongType(spec.name, spec.typ))
    else None
  }

  /** Validation of `fields` against `schema`, starting from the record
      `acc`: the fields are checked in schema order, the first rejected
      one aborts, and each accepted defined value is copied into the
      record. */
  function Validate(schema: seq<FieldSpec>, acc: Record, fields: Record): Result<Record, ValidationError>
    decreases |schema|
  {
    if schema == [] then Ok(acc)
    else
      var spec := schema[0];
      var v := Get(fields, spec.name);
      match CheckField(spec, v)
      case Some(e) => Err(e)
      case None => Validate(schema[1..], if v != Undefined then acc[spec.name := v] else acc, fields)
  }

  /** The field `spec` of `fields` passes its checks. */
  predicate Passes(spec: FieldSpec, fields: Record)
  {
    CheckField(spec, Get(fields, spec.name)).None?
  }

  /** The first `n` fields of `schema` pass their checks. */
  predicate PassesUpTo(schema: seq<FieldSpec>, fields: Record, n: nat)
    requires n <= |schema|
  {
    forall j :: 0 <= j < n ==> Passes(schema[j], fields)
  }

  /** The schema fields that `fields` gives a defined value. */
  function Assigned(schema: seq<FieldSpec>, fields: Record): set<string>
  {
    set j | 0 <= j < |schema| && Get(fields, schema[j].name) != Undefined :: schema[j].name
  }

  /** `acc` with every supplied schema field overwritten by its value in
      `fields`; nothing else is copied. */
  function Overlay(acc: Record, schema: seq<FieldSpec>, fields: Record): Record
  {
    var supplied := Assigned(schema, fields);
    map k | k in acc.Keys + supplied :: if k in supplied then Get(fields, k) else acc[k]
  }

  /** Passing the first `n + 1` checks of a non-empty schema is passing
      its head and the first `n` checks of its tail. */
  lemma PassesUpToTail(schema: seq<FieldSpec>, fields: Record, n: nat)
    requires n < |schema|
    ensures PassesUpTo(schema, fields, n + 1) <==>
              Passes(schema[0], fields) && PassesUpTo(schema[1..], fields, n)
  {
    if Passes(schema[0], fields) && PassesUpTo(schema[1..], fields, n) {
      forall j | 0 <= j < n + 1 ensures Passes(schema[j], fields) {
        if j > 0 { assert schema[j] == schema[1..][j - 1]; }
      }
    }
    if PassesUpTo(schema, fields, n + 1) {
      forall j | 0 <= j < n ensures Passes(schema[1..][j], fields) {
        assert schema[1..][j] == schema[j + 1];
      }
    }
  }

  /** The fields a non-empty schema supplies are its tail's plus its head
      when the input defines it. */
  lemma AssignedTail(schema: seq<FieldSpec>, fields: Record)
    requires schema != []
    ensures Assigned(schema, fields) ==
              Assigned(schema[1..], fields) +
              (if Get(fields, schema[0].name) != Undefined then {schema[0].name} else {})
  {
    var tail := schema[1..];
    forall k | k in Assigned(schema, fields)
      ensures k in Assigned(tail, fields) + (if Get(fields, schema[0].name) != Undefined then {schema[0].name} else {})
    {
      var j :| 0 <= j < |schema| && Get(fields, schema[j].name) != Undefined && schema[j].name == k;
      if j > 0 { assert tail[j - 1] == schema[j]; }
    }
    forall k | k in Assigned(tail, fields) ensures k in Assigned(schema, fields) {
      var j :| 0 <= j < |tail| && Get(fields, tail[j].name) != Undefined && tail[j].name == k;
      assert schema[j + 1] == tail[j];
    }
  }

  /** Validation succeeds exactly when every field passes its checks. */
  lemma {:induction false} ValidateAccepts(schema: seq<FieldSpec>, acc: Record, fields: Record)
    ensures Validate(schema, acc, fields).Ok? <==> PassesUpTo(schema, fields, |schema|)
    decreases |schema|
  {
    if schema != [] {
      var v := Get(fields, schema[0].name);
      PassesUpToTail(schema, fields, |schema| - 1);
      if CheckField(schema[0], v).None? {
        ValidateAccepts(schema[1..], if v != Undefined then acc[schema[0].name := v] else acc, fields);
      }
    }
  }

  /** On success, validation returns the base record with the supplied
      schema fields overwritten and nothing else copied. */
  lemma {:induction false} ValidateResult(schema: seq<FieldSpec>, acc: Record, fields: Record)
    requires Validate(schema, acc, fields).Ok?
    ensures Validate(schema, acc, fields).value == Overlay(acc, schema, fields)
    decreases |schema|
  {
    if schema == [] {
      assert Overlay(acc, schema, fields) == acc;
    } else {
      var spec := schema[0];
      var v := Get(fields, spec.name);
      var acc' := if v != Undefined then acc[spec.name := v] else acc;
      ValidateResult(schema[1..], acc', fields);
      AssignedTail(schema, fields);
      assert Overlay(acc', schema[1..], fields) == Overlay(acc, schema, fields);
    }
  }

  /** On failure, validation reports the check of the first field, in
      schema order, that does not pass. */
  lemma {:induction false} ValidateFirstFailure(schema: seq<FieldSpec>, acc: Record, fields: Record)
    requires Validate(schema, acc, fields).Err?
    ensures exists k :: 0 <= k < |schema| && PassesUpTo(schema, fields, k) &&
                        CheckField(schema[k], Get(fields, schema[k].name)) == Some(Validate(schema, acc, fields).error)
    decreases |schema|
  {
    var spec := schema[0];
    var v := Get(fields, spec.name);
    if CheckField(spec, v).Some? {
      assert PassesUpTo(schema, fields, 0);
    } else {
      var tail := schema[1..];
      var acc' := if v != Undefined then acc[spec.name := v] else acc;
      ValidateFirstFailure(tail, acc', fields);
      var k :| 0 <= k < |tail| && PassesUpTo(tail, fields, k) &&
               CheckField(tail[k], Get(fields, tail[k].name)) == Some(Validate(tail, acc', fields).error);
      PassesUpToTail(schema, fields, k);
      assert schema[k + 1] == tail[k];
    }
  }

  /** Validation reads only the schema fields of its input: properties
      outside the schema (such as an `id`) make no difference. */
  lemma {:induction false} ValidateIgnoresOtherKeys(schema: seq<FieldSpec>, acc: Record, fields: Record, other: Record)
    requires forall j :: 0 <= j < |schema| ==> Get(fields, schema[j].name) == Get(other, schema[j].name)
    ensures Validate(schema, acc, fields) == Validate(schema, acc, other)
    decreases |schema|
  {
    if schema != [] {
      var v := Get(fields, schema[0].name);
      var acc' := if v != Undefined then acc[schema[0].name := v] else acc;
      forall j | 0 <= j < |schema[1..]|
        ensures Get(fields, schema[1..][j].name) == Get(other, schema[1..][j].name)
      {
        assert schema[1..][j] == schema[j + 1];
      }
      ValidateIgnoresOtherKeys(schema[1..], acc', fields, other);
    }
  }

  /** The validator as the source runs it: a loop over the schema that
      updates a copy of the base record and throws on the first rejected
      field. */
  method ValidateFields(base: Record, fields: Record) returns (r: Result<Record, ValidationError>)
    ensures r == Validate(NoteSchema, base, fields)
  {
    var validated := base;
    var i := 0;
    while i < |NoteSchema|
      invariant 0 <= i <= |NoteSchema|
      invariant Validate(NoteSchema[i..], validated, fields) == Validate(NoteSchema, base, fields)
    {
      var spec := NoteSchema[i];
      var value := Get(fields, spec.name);
      assert NoteSchema[i..][1..] == NoteSchema[i + 1..];
      if spec.required && !Truthy(value) {
        return Err(Required(spec.name));
      }
      if value != Undefined && TypeOf(value) != spec.typ {
        return Err(WrongType(spec.name, spec.typ));
      }
      if value != Undefined {
        validated := validated[spec.name := value];
      }
      i := i + 1;
    }
    r := Ok(validated);
  }

  /** A non-empty string: what a required string field must hold. */
  predicate IsText(v: Value)
  {
    v.Str? && v.s != ""
  }

  /** `undefined` or a string: what an optional string field may hold. */
  predicate IsOptionalText(v: Value)
  {
    v == Undefined || v.Str?
  }

  /** The note schema accepts `fields` exactly when title and content are
      non-empty strings and each timestamp is absent or a string; on
      success each schema field takes the input's value where that is
      defined and keeps the base value otherwise, and every other
      property is the base record's. */
  lemma NoteValidation(base: Record, fields: Record)
    ensures Validate(NoteSchema, base, fields).Ok? <==>
              IsText(Get(fields, "title")) && IsText(Get(fields, "content")) &&
              IsOptionalText(Get(fields, "created_at")) && IsOptionalText(Get(fields, "updated_at"))
    ensures Validate(NoteSchema, base, fields).Ok? ==>
              var r := Validate(NoteSchema, base, fields).value;
              r.Keys <= base.Keys + NoteFields &&
              forall k :: Get(r, k) == if k in NoteFields && Get(fields, k) != Undefined then Get(fields, k) else Get(base, k)
  {
    ValidateAccepts(NoteSchema, base, fields);
    if Validate(NoteSchema, base, fields).Ok? {
      ValidateResult(NoteSchema, base, fields);
    }
    assert PassesUpTo(NoteSchema, fields, 4) <==>
             Passes(NoteSchema[0], fields) && Passes(NoteSchema[1], fields) &&
             Passes(NoteSchema[2], fields) && Passes(NoteSchema[3], fields);
    var supplied := Assigned(NoteSchema, fields);
    forall k ensures k in supplied <==> k in NoteFields && Get(fields, k) != Undefined {
      if k in NoteFields && Get(fields, k) != Undefined {
        var j := if k == "title" then 0 else if k == "content" then 1 else if k == "created_at" then 2 else 3;
        assert NoteSchema[j].name == k;
      }
    }
  }

  /** A falsy title is reported as missing before anything else, whatever
      else the input holds. */
  lemma FalsyTitleIsRequired(base: Record, fields: Record)
    requires !Truthy(Get(fields, "title"))
    ensures Validate(NoteSchema, base, fields) == Err(Required("title"))
    ensures Message(Validate(NoteSchema, base, fields).error) == "title is required."
  {
  }

  /** A truthy title that is not a string is rejected by the type check,
      before content is looked at. */
  lemma NonStringTitleIsWrongType(base: Record, fields: Record)
    requires Truthy(Get(fields, "title")) && !Get(fields, "title").Str?
    ensures Validate(NoteSchema, base, fields) == Err(WrongType("title", "string"))
    ensures Message(Validate(NoteSchema, base, fields).error) == "title must be a string."
  {
  }

  /** With an acceptable title, a falsy content is the failure reported. */
  lemma FalsyContentIsRequired(base: Record, fields: Record)
    requires IsText(Get(fields, "title")) && !Truthy(Get(fields, "content"))
    ensures Validate(NoteSchema, base, fields) == Err(Required("content"))
    ensures Message(Validate(NoteSchema, base, fields).error) == "content is required."
  {
  }

  /** An optional timestamp that is defined but not a string, `null`
      included, is rejected once title and content pass. */
  lemma NonStringTimestampIsWrongType(base: Record, fields: Record)
    requires IsText(Get(fields, "title")) && IsText(Get(fields, "content"))
    requires Get(fields, "created_at") != Undefined && !Get(fields, "created_at").Str?
    ensures Validate(NoteSchema, base, fields) == Err(WrongType("created_at", "string"))
    ensures Message(Validate(NoteSchema, base, fields).error) == "created_at must be a string."
  {
    assert Validate(NoteSchema, base, fields) == Err(WrongType("created_at", "string"));
    assert Message(WrongType("created_at", "string")) == "created_at must be a string.";
  }
}
