/** Parsed JSON values and the duck-typed reads the handlers make on them. */
module JsonValue {
  import opened Wrappers
  import opened Text

  /** A JSON value; numbers are modelled as integers. */
  datatype Json =
    | JNull
    | JBool(b: bool)
    | JNum(n: int)
    | JStr(s: string)
    | JArr(items: seq<Json>)
    | JObj(fields: map<string, Json>)

  /** `v?.name`: present only when `v` is an object that has the member. */
  function Member(v: Json, name: string): (r: Option<Json>)
    ensures r.Some? <==> v.JObj? && name in v.fields
    ensures r.Some? ==> r.value == v.fields[name]
  {
    if v.JObj? && name in v.fields then Some(v.fields[name]) else None
  }

  /** `typeof v?.name === "string"` */
  predicate IsStringMember(v: Json, name: string) {
    Member(v, name).Some? && Member(v, name).value.JStr?
  }

  /** `Array.isArray(v?.name)` */
  predicate IsArrayMember(v: Json, name: string) {
    Member(v, name).Some? && Member(v, name).value.JArr?
  }

  /** `typeof v?.name === "string" ? v.name : ""` */
  function StringMember(v: Json, name: string): (r: string)
    ensures IsStringMember(v, name) ==> Member(v, name) == Some(JStr(r))
    ensures !IsStringMember(v, name) ==> r == ""
  {
    match Member(v, name)
    case Some(JStr(s)) => s
    case _ => ""
  }

  /** `typeof v?.name === "string" ? v.name.trim() : ""` */
  function TrimmedMember(v: Json, name: string): (r: string)
    ensures IsStringMember(v, name) ==> r == Trim(Member(v, name).value.s)
    ensures !IsStringMember(v, name) ==> r == ""
    ensures r == [] || (!IsSpace(r[0]) && !IsSpace(r[|r| - 1]))
  {
    Trim(StringMember(v, name))
  }

  /** `Array.isArray(v?.name) ? v.name : []` */
  function ArrayMember(v: Json, name: string): (r: seq<Json>)
    ensures IsArrayMember(v, name) ==> Member(v, name) == Some(JArr(r))
    ensures !IsArrayMember(v, name) ==> r == []
  {
    match Member(v, name)
    case Some(JArr(a)) => a
    case _ => []
  }

  /** JavaScript truthiness of a JSON value, `undefined` being `None`. */
  predicate Truthy(v: Option<Json>) {
    match v
    case None => false
    case Some(JNull) => false
    case Some(JBool(b)) => b
    case Some(JNum(n)) => n != 0
    case Some(JStr(s)) => s != ""
    case Some(_) => true
  }
}
