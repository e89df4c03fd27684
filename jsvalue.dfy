/** JavaScript values as the build scripts meet them in `package.json`,
    `supported.json` and the objects they assemble. Numbers are integers. */
module JsValues {
  import opened Base
  import opened Strings
  import opened Records

  datatype JsValue =
    | Undefined
    | Null
    | Bool(b: bool)
    | Num(n: int)
    | Str(s: string)
    | Arr(items: seq<JsValue>)
    | Obj(fields: Record<JsValue>)

  /** What `if (v)` and `v || w` test. */
  predicate Truthy(v: JsValue) {
    match v
    case Undefined => false
    case Null => false
    case Bool(b) => b
    case Num(n) => n != 0
    case Str(s) => s != ""
    case _ => true
  }

  /** `String(v)`, as a template literal `${v}` inserts it; an array joins
      its elements with `,`, writing `null` and `undefined` as nothing. */
  function ToString(v: JsValue): string
    decreases v
  {
    match v
    case Undefined => "undefined"
    case Null => "null"
    case Bool(b) => if b then "true" else "false"
    case Num(n) => IntToString(n)
    case Str(s) => s
    case Arr(items) =>
      Join(seq(|items|, i requires 0 <= i < |items| =>
        if items[i].Undefined? || items[i].Null? then "" else ToString(items[i])), ",")
    case Obj(_) => "[object Object]"
  }

  /** `obj[k]` on an object's entries: `undefined` when absent. */
  function Field(r: Record<JsValue>, k: string): (v: JsValue)
    ensures k !in Keys(r) ==> v == Undefined
  {
    match Lookup(r, k)
    case None => Undefined
    case Some(v) => v
  }

  /** `v[k]` for the property reads of the scripts: only objects have the
      properties they read. */
  function Prop(v: JsValue, k: string): JsValue {
    if v.Obj? then Field(v.fields, k) else Undefined
  }

  /** `obj[k] = v` reads back, and changes no other key. */
  lemma FieldPut(r: Record<JsValue>, k: string, v: JsValue, k': string)
    ensures Field(Put(r, k, v), k') == if k' == k then v else Field(r, k')
  {
    PutReads(r, k, v, k');
  }

  /** `Object.assign(r, entries)` and `{...r, ...entries}`: a key of the
      entries reads as there, any other as in `r`. */
  lemma FieldPutAll(r: Record<JsValue>, entries: Record<JsValue>, k: string)
    requires UniqueKeys(entries)
    ensures Field(PutAll(r, entries), k) == if k in Keys(entries) then Field(entries, k) else Field(r, k)
  {
    PutAllReads(r, entries, k);
  }
}
