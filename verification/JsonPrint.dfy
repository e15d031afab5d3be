/** The text that the printers of cJSON.c produce, as functions of the tree. */
module JsonPrint {

  import opened CString
  import opened Json

  function Digit(d: nat): char
    requires d < 10
  {
    ('0' as int + d) as char
  }

  function Digits(n: nat): string {
    if n < 10 then [Digit(n)] else Digits(n / 10) + [Digit(n % 10)]
  }

  /** `%d` */
  function Decimal(n: int): string {
    if n < 0 then "-" + Digits(-n) else Digits(n)
  }

  function PrintNumber(d: real): string
    requires IsInt32(d)
  {
    Decimal(d.Floor)
  }

  function HexDigit(d: nat): char
    requires d < 16
  {
    if d < 10 then Digit(d) else ('a' as int + (d - 10)) as char
  }

  /** `%04x` for values of at most four digits. */
  function Hex4(n: nat): string
    requires n < 0x1_0000
  {
    [HexDigit(n / 0x1000), HexDigit(n / 0x100 % 16), HexDigit(n / 16 % 16), HexDigit(n % 16)]
  }

  predicate NeedsEscape(c: char) {
    c < ' ' || c == '\"' || c == '\\'
  }

  function EscapeChar(c: char): string {
    if !NeedsEscape(c) then [c]
    else match c
      case '\\' => "\\\\"
      case '\"' => "\\\""
      case '\U{0008}' => "\\b"
      case '\U{000C}' => "\\f"
      case '\n' => "\\n"
      case '\r' => "\\r"
      case '\t' => "\\t"
      case _ => "\\u" + Hex4(c as int)
  }

  function Escape(s: string): string {
    if s == "" then "" else EscapeChar(s[0]) + Escape(s[1..])
  }

  function PrintString(s: string): string {
    "\"" + Escape(s) + "\""
  }

  function Tabs(n: nat): string {
    seq(n, _ => '\t')
  }

  function PrintValue(t: Json, depth: nat, fmt: bool): string
    requires Printable(t)
    decreases t, 0
  {
    match t
    case Null => "null"
    case False => "false"
    case True => "true"
    case Number(d) => PrintNumber(d)
    case Str(s) => PrintString(s)
    case Arr(items) =>
      if items == [] then "[]" else "[" + PrintItems(items, depth + 1, fmt) + "]"
    case Obj(members) =>
      if members == [] then EmptyObject(depth, fmt)
      else ObjectOpen(fmt) + PrintMembers(members, depth + 1, fmt) + ObjectClose(depth, fmt)
  }

  /** An empty object indents its closing brace one tab less than a non-empty one. */
  function EmptyObject(depth: nat, fmt: bool): string {
    if fmt then "{\n" + Tabs(if depth == 0 then 0 else depth - 1) + "}" else "{}"
  }

  function ObjectOpen(fmt: bool): string {
    if fmt then "{\n" else "{"
  }

  function ObjectClose(depth: nat, fmt: bool): string {
    (if fmt then Tabs(depth) else "") + "}"
  }

  function ItemSeparator(fmt: bool): string {
    if fmt then ", " else ","
  }

  function PrintItems(items: seq<Json>, depth: nat, fmt: bool): string
    requires forall i | 0 <= i < |items| :: Printable(items[i])
    decreases items, 0
  {
    if items == [] then ""
    else
      PrintValue(items[0], depth, fmt)
      + (if |items| > 1 then ItemSeparator(fmt) else "")
      + PrintItems(items[1..], depth, fmt)
  }

  /** What precedes the value of a member. */
  function MemberHead(name: string, depth: nat, fmt: bool): string {
    (if fmt then Tabs(depth) else "") + PrintString(name) + (if fmt then ":\t" else ":")
  }

  /** What follows the value of a member. */
  function MemberTail(last: bool, fmt: bool): string {
    (if last then "" else ",") + (if fmt then "\n" else "")
  }

  function PrintMembers(members: seq<Member>, depth: nat, fmt: bool): string
    requires forall i | 0 <= i < |members| :: NulFree(members[i].name) && Printable(members[i].value)
    decreases members, 0
  {
    if members == [] then ""
    else
      MemberHead(members[0].name, depth, fmt)
      + PrintValue(members[0].value, depth, fmt)
      + MemberTail(|members| == 1, fmt)
      + PrintMembers(members[1..], depth, fmt)
  }
}
