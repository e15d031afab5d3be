/** The values a cJSON tree stands for, and the outcome of reading one from text. */
module Json {

  import opened CString

  datatype Json =
    | Null
    | False
    | True
    | Number(value: real)
    | Str(text: string)
    | Arr(items: seq<Json>)
    | Obj(members: seq<Member>)

  datatype Member = Member(name: string, value: Json)

  const INT_MIN := -0x8000_0000
  const INT_MAX := 0x7fff_ffff

  /** The numbers for which printing takes the integer path. */
  predicate IsInt32(d: real) {
    d.Floor as real == d && INT_MIN <= d.Floor <= INT_MAX
  }

  /** The trees that the printers handle without floating-point formatting. */
  predicate Printable(t: Json) {
    match t
    case Null => true
    case False => true
    case True => true
    case Number(d) => IsInt32(d)
    case Str(s) => NulFree(s)
    case Arr(items) => forall i | 0 <= i < |items| :: Printable(items[i])
    case Obj(members) => forall i | 0 <= i < |members| :: NulFree(members[i].name) && Printable(members[i].value)
  }

  /** What a parsing step yields: the value with the text left to read, a rejection, or a text on
      which the C code would run past an incomplete escape. */
  datatype Parsed<+T> =
    | Incomplete
    | Failed
    | Parsed(value: T, rest: string)
  {
    predicate IsFailure() {
      !Parsed?
    }

    function PropagateFailure<U>(): Parsed<U>
      requires IsFailure()
    {
      if Incomplete? then Incomplete else Failed
    }

    function Extract(): (T, string)
      requires !IsFailure()
    {
      (value, rest)
    }
  }
}
