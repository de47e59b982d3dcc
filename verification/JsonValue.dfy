/** The values a cJSON tree stands for. */
module JsonValue {
  import opened CText

  datatype Json =
    | Null
    | False
    | True
    | Num(d: real)
    | Str(s: string)
    | Arr(items: seq<Json>)
    | Obj(members: seq<Member>)

  datatype Member = Member(key: string, val: Json)

  const INT_MAX: int := 0x7FFF_FFFF
  const INT_MIN: int := -0x8000_0000

  /** A number printed through the `%d` path: an integer in the range of a 32-bit int. */
  predicate IsInt32(d: real) {
    d == d.Floor as real && INT_MIN <= d.Floor <= INT_MAX
  }

  /** A C string holds no NUL. */
  predicate IsCString(s: string) {
    '\0' !in s
  }

  /** The trees the printer and parser theorems range over. */
  ghost predicate Printable(v: Json) {
    match v
    case Num(d) => IsInt32(d)
    case Str(s) => IsCString(s)
    case Arr(items) => forall x :: x in items ==> Printable(x)
    case Obj(members) => forall m :: m in members ==> IsCString(m.key) && Printable(m.val)
    case _ => true
  }

  /** As many opening as closing braces. */
  predicate BalancedText(s: string) {
    Count(s, '{') == Count(s, '}')
  }

  /** Every string and every key of the value is brace-balanced. */
  ghost predicate Balanced(v: Json) {
    match v
    case Str(s) => BalancedText(s)
    case Arr(items) => forall x :: x in items ==> Balanced(x)
    case Obj(members) => forall m :: m in members ==> BalancedText(m.key) && Balanced(m.val)
    case _ => true
  }
}
