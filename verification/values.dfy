/** The JSON values a prospect record holds, and the JavaScript coercions the
    dashboard applies to them. */
module Values {

  import opened Wrappers
  import Text

  /** A field value as the dashboard meets it: a string or a number. A missing
      key stands for both `undefined` and `null`: the forms' reads (`?? ""`,
      `|| ""`, truthiness) treat them alike. The spread in `updateProspect`
      does not, since it copies a `null` property, but every patch it
      receives holds strings only. */
  datatype Value = Str(text: string) | Num(n: int)

  /** The prospect properties the forms edit. */
  datatype Field = LastName | FirstName | Email | Phone | City | SectorWatchedId

  /** A property name of a JSON object: `id`, one of the form fields
      (`lastName`, `firstName`, `email`, `phone`, `city`, `sectorWatchedId`),
      or some other property. A JSON property named `id` or like a field is
      always read as `Id` or `Of`, so `Other` holds only the remaining
      names. */
  datatype Prop = Id | Of(field: Field) | Other(name: string)

  /** A prospect (or the patch sent to update one): a JSON object. */
  type Record = map<Prop, Value>

  /** `record[key]`, with `None` for a missing key. */
  function Get(r: Record, key: Prop): Option<Value> {
    if key in r then Some(r[key]) else None
  }

  /** JavaScript truthiness of a field read: `undefined`, `""` and `0` are
      falsy, every other string and number is truthy. */
  predicate Truthy(v: Option<Value>) {
    match v
    case None => false
    case Some(Str(s)) => s != []
    case Some(Num(n)) => n != 0
  }

  /** `v || ""`: a falsy read replaced by the empty string. */
  function OrEmpty(v: Option<Value>): Value {
    if Truthy(v) then v.value else Str("")
  }

  /** `String(v ?? "")`: the text a form control shows once its `value` is
      set to `v`, and the text a regular expression tests `v` as. */
  function Display(v: Option<Value>): string {
    match v
    case None => ""
    case Some(Str(s)) => s
    case Some(Num(n)) => Text.IntToDecimal(n)
  }
}
