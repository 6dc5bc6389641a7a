/** The JSON values the program exchanges with the text-completion service
    and keeps in its session store, with the few Python operations it applies
    to them: truthiness, `dict.get`, iteration, and type names. */
module Json {
  import opened Wrappers
  import opened PyDict

  /** A value `json.loads` can produce. Numbers are integers only; an object
      keeps its members in document order. */
  datatype JValue =
    | JNull
    | JBool(b: bool)
    | JNum(n: int)
    | JStr(s: string)
    | JArr(items: seq<JValue>)
    | JObj(members: Dict<string, JValue>)

  /** A JSON parser: `Some` of the value, or `None` where `json.loads` raises
      `JSONDecodeError`. */
  type Parser = string -> Option<JValue>

  /** `bool(v)` */
  predicate Truthy(v: JValue) {
    match v
    case JNull => false
    case JBool(b) => b
    case JNum(n) => n != 0
    case JStr(s) => |s| > 0
    case JArr(xs) => |xs| > 0
    case JObj(m) => |m| > 0
  }

  /** `type(v).__name__` */
  function TypeName(v: JValue): string {
    match v
    case JNull => "NoneType"
    case JBool(_) => "bool"
    case JNum(_) => "int"
    case JStr(_) => "str"
    case JArr(_) => "list"
    case JObj(_) => "dict"
  }

  /** The elements `for x in v` visits: the items of a list, the keys of a
      dict, the one-character strings of a string. `None` where Python raises
      `TypeError` because the value is not iterable. */
  function Iterate(v: JValue): (r: Option<seq<JValue>>)
    ensures r.Some? <==> (v.JArr? || v.JObj? || v.JStr?)
    ensures r.Some? ==> (|r.value| > 0 <==> Truthy(v))
    ensures v.JArr? ==> r == Some(v.items)
    ensures v.JObj? ==> |r.value| == |v.members|
                        && forall i :: 0 <= i < |v.members| ==> r.value[i] == JStr(v.members[i].0)
    ensures v.JStr? ==> |r.value| == |v.s| && forall i :: 0 <= i < |v.s| ==> r.value[i] == JStr([v.s[i]])
  {
    match v
    case JArr(xs) => Some(xs)
    case JObj(m) => Some(seq(|m|, i requires 0 <= i < |m| => JStr(m[i].0)))
    case JStr(s) => Some(seq(|s|, i requires 0 <= i < |s| => JStr([s[i]])))
    case _ => None
  }

  /** `d.get(key, default)` on a JSON object. */
  function Member(d: Dict<string, JValue>, key: string, default: JValue): (r: JValue)
    ensures HasKey(d, key) ==> Some(r) == Get(d, key)
    ensures !HasKey(d, key) ==> r == default
  {
    GetOr(d, key, default)
  }
}
