/**
 * The PocketBase entities the plugin reads and writes: collections with
 * their fields, records, the generic maps collection files decode to, and
 * the content of a data file.
 */
module Model {
  import opened Wrappers

  datatype Kind = Base | View | Auth

  /** The field type tags the plugin tests for, and every other tag. */
  datatype FieldType = TextField | PasswordField | AutodateField | BoolField | OtherField(tag: string)

  datatype Field = Field(name: string, typ: FieldType)

  /** The federated-login block of an auth collection; `ZeroOAuth2` is Go's
      zero value `core.OAuth2Config{}`. */
  datatype OAuth2Config = OAuth2Config(enabled: bool, providers: seq<string>, mappedFields: map<string, string>)

  const ZeroOAuth2 := OAuth2Config(false, [], map[])

  /** `types.DateTime`, identified by the text its `String()` gives; the zero
      time prints as "". */
  datatype DateTime = DateTime(text: string)

  const ZeroDateTime := DateTime("")

  /** What `record.Get` can return. `Json(t)` is any other value, carried
      with the JSON text `json.Marshal` gives for it; `Password` is the raw
      value of a password field, its hash standing for bcrypt of `secret`. */
  datatype Value =
    | Nil
    | Str(s: string)
    | Date(d: DateTime)
    | Bool(b: bool)
    | Json(text: string)
    | Password(plain: string, secret: string)

  datatype Collection = Collection(
    id: string,
    name: string,
    kind: Kind,
    system: bool,
    fields: seq<Field>,
    oauth2: OAuth2Config,
    updated: DateTime)

  /** A record: its collection, its field values and the flag that makes
      a save an insert. */
  datatype Record = Record(collection: Collection, data: map<string, Value>, isNew: bool)

  const IdName := "id"
  const PasswordName := "password"
  const TokenKeyName := "tokenKey"
  const VerifiedName := "verified"
  const EmailVisibilityName := "emailVisibility"

  /** `core.NewRecord(collection)`: no values yet, to be inserted. */
  function NewRecord(c: Collection): (r: Record)
    ensures r.collection == c && r.data == map[] && r.isNew
  {
    Record(c, map[], true)
  }

  /** `record.Get(name)`: the stored value, nil when there is none. */
  function Get(r: Record, name: string): Value {
    if name in r.data then r.data[name] else Nil
  }

  /** `record.Id`, kept in the "id" field; "" when it holds no string. */
  function Id(r: Record): string {
    match Get(r, IdName)
    case Str(s) => s
    case _ => ""
  }

  /** `collection.Fields.GetByName`: the first field with that name. */
  function GetByName(fields: seq<Field>, name: string): (r: Option<Field>)
    ensures r.Some? ==> r.value in fields && r.value.name == name
    ensures r.None? ==> forall i :: 0 <= i < |fields| ==> fields[i].name != name
  {
    if fields == [] then None
    else if fields[0].name == name then Some(fields[0])
    else GetByName(fields[1..], name)
  }

  /** `collection.Fields.AsMap()` reduced to the field types: a later field
      of the same name overwrites an earlier one. */
  function FieldTypes(fields: seq<Field>): (m: map<string, FieldType>)
    ensures forall n :: n in m <==> exists i :: 0 <= i < |fields| && fields[i].name == n
  {
    if fields == [] then map[]
    else
      var m := FieldTypes(fields[..|fields| - 1]);
      var f := fields[|fields| - 1];
      assert forall i :: 0 <= i < |fields| - 1 ==> fields[..|fields| - 1][i] == fields[i];
      m[f.name := f.typ]
  }

  ghost predicate UniqueNames(fields: seq<Field>) {
    forall i, j :: 0 <= i < j < |fields| ==> fields[i].name != fields[j].name
  }

  /** With unique field names, `GetByName` and `AsMap` agree. */
  lemma {:induction false} LookupsAgree(fields: seq<Field>, name: string)
    requires UniqueNames(fields)
    ensures name in FieldTypes(fields) <==> GetByName(fields, name).Some?
    ensures name in FieldTypes(fields) ==> FieldTypes(fields)[name] == GetByName(fields, name).value.typ
  {
    if fields != [] {
      var init := fields[..|fields| - 1];
      var last := fields[|fields| - 1];
      assert UniqueNames(init);
      if name == last.name {
        forall i | 0 <= i < |fields| - 1
          ensures fields[i].name != name
        {
        }
        GetByNameOfLast(fields, name);
      } else {
        LookupsAgree(init, name);
        GetByNameOfInit(fields, name);
      }
    }
  }

  lemma {:induction false} GetByNameOfLast(fields: seq<Field>, name: string)
    requires fields != [] && fields[|fields| - 1].name == name
    requires forall i :: 0 <= i < |fields| - 1 ==> fields[i].name != name
    ensures GetByName(fields, name) == Some(fields[|fields| - 1])
  {
    if |fields| > 1 {
      GetByNameOfLast(fields[1..], name);
    }
  }

  lemma {:induction false} GetByNameOfInit(fields: seq<Field>, name: string)
    requires fields != [] && fields[|fields| - 1].name != name
    ensures GetByName(fields, name) == GetByName(fields[..|fields| - 1], name)
  {
    if |fields| > 1 && fields[0].name != name {
      assert fields[1..][..|fields[1..]| - 1] == fields[..|fields| - 1][1..];
      GetByNameOfInit(fields[1..], name);
    }
  }

  /** A value of a decoded collection file. */
  datatype Json =
    | JNull
    | JBool(b: bool)
    | JNumber(text: string)
    | JString(s: string)
    | JArray(items: seq<Json>)
    | JObject(members: map<string, Json>)

  /** The generic map a collection file decodes to. */
  type Doc = map<string, Json>

  /** The content of a data file: the cell rows the CSV reader yields, or
      the text of any other format. An empty file is `Rows([])`. */
  datatype Content = Rows(rows: seq<seq<string>>) | Text(text: string)
}
