/**
 * Table schemas: per-field constraints `{type, required, max_length}` checked
 * against a candidate record before any write (`_validate_record`), the
 * table-name rule of `_validate_table_name`, and the in-place schema edits
 * made by `alter_table`.
 */
module Schemas {
  import opened Values

  /** The Python type a constraint names: str, int or bool. */
  datatype TypeTag = StrType | IntType | BoolType

  /** One field's constraints; an absent `type` or `max_length` is None, an absent
      `required` is false. */
  datatype Constraint = Constraint(fieldType: Option<TypeTag>, required: bool, maxLength: Option<int>)

  /** A schema: field name to constraints, in the order the schema lists them. */
  type Schema = seq<(string, Constraint)>

  /** The constraints `{}` that `alter_table` uses when no column definition is given. */
  const NoConstraint := Constraint(None, false, None)

  /** `isinstance(v, t)`; a bool is an instance of int in Python. */
  predicate IsInstance(v: Value, t: TypeTag)
  {
    match t
    case StrType => v.Str?
    case IntType => v.Int? || v.Bool?
    case BoolType => v.Bool?
  }

  /** `if max_length and ...`: a limit of 0 is falsy and imposes nothing. */
  predicate LengthLimited(c: Constraint)
  {
    c.maxLength.Some? && c.maxLength.value != 0
  }

  /** What a constraint asks of a record: a required field is present; a present
      field has the declared type, and a present string is no longer than the limit. */
  predicate Conforms(rec: Record, field: string, c: Constraint)
  {
    && (c.required ==> field in rec)
    && (field in rec && c.fieldType.Some? ==> IsInstance(rec[field], c.fieldType.value))
    && (field in rec && LengthLimited(c) && rec[field].Str? ==> |rec[field].s| <= c.maxLength.value)
  }

  function CheckField(rec: Record, field: string, c: Constraint): (ok: bool)
    ensures ok <==> Conforms(rec, field, c)
  {
    if c.required && field !in rec then false
    else if field !in rec then true
    else
      var v := rec[field];
      if c.fieldType.Some? && !IsInstance(v, c.fieldType.value) then false
      else !(LengthLimited(c) && v.Str? && |v.s| > c.maxLength.value)
  }

  /** Field `i` is the first one, in schema order, that does not conform. */
  predicate FirstFailureAt(schema: Schema, rec: Record, i: int)
  {
    && 0 <= i < |schema|
    && !Conforms(rec, schema[i].0, schema[i].1)
    && forall j :: 0 <= j < i ==> Conforms(rec, schema[j].0, schema[j].1)
  }

  /** The schema loop of `_validate_record`: None when every field conforms,
      otherwise the first field, in schema order, that does not (the field the
      ValidationError names). */
  function FirstViolation(schema: Schema, rec: Record): (r: Option<string>)
    ensures r.None? <==> forall i :: 0 <= i < |schema| ==> Conforms(rec, schema[i].0, schema[i].1)
    ensures r.Some? ==> exists i :: FirstFailureAt(schema, rec, i) && schema[i].0 == r.value
  {
    if schema == [] then None
    else if !CheckField(rec, schema[0].0, schema[0].1) then Some(schema[0].0)
    else
      var r := FirstViolation(schema[1..], rec);
      assert forall i :: 1 <= i < |schema| ==> schema[i] == schema[1..][i - 1];
      assert r.Some? ==> exists i :: FirstFailureAt(schema, rec, i) && schema[i].0 == r.value by {
        if r.Some? {
          var i :| FirstFailureAt(schema[1..], rec, i) && schema[1..][i].0 == r.value;
          assert FirstFailureAt(schema, rec, i + 1);
        }
      }
      r
  }

  /** A table without a schema accepts every record; otherwise every field of
      its schema must conform. */
  ghost predicate SchemaAccepts(schemas: map<string, Schema>, table: string, rec: Record)
  {
    table in schemas ==>
      forall i :: 0 <= i < |schemas[table]| ==> Conforms(rec, schemas[table][i].0, schemas[table][i].1)
  }

  /** `_validate_record`: true, or the failure that raises ValidationError. */
  function ValidateRecord(schemas: map<string, Schema>, table: string, rec: Record): (ok: bool)
    ensures ok <==> SchemaAccepts(schemas, table, rec)
  {
    table !in schemas || FirstViolation(schemas[table], rec).None?
  }

  // ---------------------------------------------------------------------------
  // Table names.

  predicate IsAlnum(c: char)
  {
    ('a' <= c <= 'z') || ('A' <= c <= 'Z') || ('0' <= c <= '9')
  }

  /** `name.replace('_', '').replace('-', '')`. */
  function StripSeparators(name: string): (r: string)
    ensures |r| <= |name|
    ensures forall c :: c in r <==> c in name && c != '_' && c != '-'
  {
    if name == [] then []
    else (if name[0] == '_' || name[0] == '-' then [] else [name[0]]) + StripSeparators(name[1..])
  }

  /** `_validate_table_name`: a non-empty name of at most 64 characters, made of
      letters, digits, `_` and `-`, that is not made of separators alone
      (`''.isalnum()` is false). */
  function ValidTableName(name: string): (ok: bool)
    ensures ok <==>
      && 1 <= |name| <= 64
      && (forall k :: 0 <= k < |name| ==> IsAlnum(name[k]) || name[k] == '_' || name[k] == '-')
      && (exists k :: 0 <= k < |name| && IsAlnum(name[k]))
  {
    if |name| == 0 || |name| > 64 then false
    else
      var core := StripSeparators(name);
      var ok := |core| > 0 && forall k :: 0 <= k < |core| ==> IsAlnum(core[k]);
      assert ok ==> IsAlnum(core[0]) && core[0] in name;
      assert (forall k :: 0 <= k < |name| ==> IsAlnum(name[k]) || name[k] == '_' || name[k] == '-') ==>
        forall k :: 0 <= k < |core| ==> IsAlnum(core[k]) by {
        if forall k :: 0 <= k < |name| ==> IsAlnum(name[k]) || name[k] == '_' || name[k] == '-' {
          forall k | 0 <= k < |core| ensures IsAlnum(core[k]) {
            assert core[k] in core;
          }
        }
      }
      assert ok ==> forall k :: 0 <= k < |name| ==> IsAlnum(name[k]) || name[k] == '_' || name[k] == '-' by {
        if ok {
          forall k | 0 <= k < |name| ensures IsAlnum(name[k]) || name[k] == '_' || name[k] == '-' {
            if name[k] != '_' && name[k] != '-' {
              assert name[k] in core;
            }
          }
        }
      }
      assert (exists k :: 0 <= k < |name| && IsAlnum(name[k])) ==> |core| > 0 by {
        if exists k :: 0 <= k < |name| && IsAlnum(name[k]) {
          var k :| 0 <= k < |name| && IsAlnum(name[k]);
          assert name[k] in core;
        }
      }
      ok
  }

  // ---------------------------------------------------------------------------
  // Schema edits.

  /** The constraints a schema gives a field, if it names it. */
  function ConstraintOf(s: Schema, field: string): Option<Constraint>
  {
    if s == [] then None else if s[0].0 == field then Some(s[0].1) else ConstraintOf(s[1..], field)
  }

  function Replace(s: Schema, field: string, c: Constraint): (r: Schema)
    ensures |r| == |s|
    ensures forall i :: 0 <= i < |s| ==> r[i] == if s[i].0 == field then (field, c) else s[i]
  {
    if s == [] then [] else [if s[0].0 == field then (field, c) else s[0]] + Replace(s[1..], field, c)
  }

  /** `schema[field] = c`: a listed field keeps its place, a new one goes last. */
  function SchemaPut(s: Schema, field: string, c: Constraint): (r: Schema)
  {
    if ConstraintOf(s, field).Some? then Replace(s, field, c) else s + [(field, c)]
  }

  /** `del schema[field]`. */
  function SchemaRemove(s: Schema, field: string): (r: Schema)
    ensures |r| <= |s|
    ensures forall i :: 0 <= i < |r| ==> r[i].0 != field
  {
    if s == [] then [] else (if s[0].0 == field then [] else [s[0]]) + SchemaRemove(s[1..], field)
  }

  lemma {:induction false} ConstraintOfReplace(s: Schema, field: string, c: Constraint, g: string)
    ensures ConstraintOf(Replace(s, field, c), g) ==
      if g == field && ConstraintOf(s, field).Some? then Some(c) else ConstraintOf(s, g)
  {
    if s != [] {
      ConstraintOfReplace(s[1..], field, c, g);
      assert Replace(s, field, c)[1..] == Replace(s[1..], field, c);
    }
  }

  lemma {:induction false} ConstraintOfAppend(s: Schema, field: string, c: Constraint, g: string)
    requires ConstraintOf(s, field).None?
    ensures ConstraintOf(s + [(field, c)], g) == if g == field then Some(c) else ConstraintOf(s, g)
  {
    if s != [] {
      assert (s + [(field, c)])[1..] == s[1..] + [(field, c)];
      ConstraintOfAppend(s[1..], field, c, g);
    }
  }

  /** After `schema[field] = c` the field has constraints `c` and every other field keeps its own. */
  lemma SchemaPutLookup(s: Schema, field: string, c: Constraint, g: string)
    ensures ConstraintOf(SchemaPut(s, field, c), g) == if g == field then Some(c) else ConstraintOf(s, g)
  {
    if ConstraintOf(s, field).Some? {
      ConstraintOfReplace(s, field, c, g);
    } else {
      ConstraintOfAppend(s, field, c, g);
    }
  }

  /** After `del schema[field]` the field is gone and every other field keeps its constraints. */
  lemma {:induction false} SchemaRemoveLookup(s: Schema, field: string, g: string)
    ensures ConstraintOf(SchemaRemove(s, field), g) == if g == field then None else ConstraintOf(s, g)
  {
    if s != [] {
      SchemaRemoveLookup(s[1..], field, g);
      if s[0].0 != field {
        assert SchemaRemove(s, field) == [s[0]] + SchemaRemove(s[1..], field);
        assert SchemaRemove(s, field)[1..] == SchemaRemove(s[1..], field);
      } else {
        assert SchemaRemove(s, field) == SchemaRemove(s[1..], field);
      }
    }
  }
}
