/** The reading side of cJSON.c as functions on the text still to be read. */
module JsonParse {

  import opened Bits
  import opened CString
  import opened Json

  /** `skip`: jumps over every character up to and including the space, except the terminator. */
  function Skip(s: string): (r: string)
    ensures |r| <= |s|
  {
    if s != "" && NUL < s[0] <= ' ' then Skip(s[1..]) else s
  }

  predicate IsDigit(c: char) {
    '0' <= c <= '9'
  }

  function DigitValue(c: char): nat
    requires IsDigit(c)
  {
    c as int - '0' as int
  }

  /** Reads digits into an accumulator. */
  function ScanDigits(s: string, n: nat): (r: (nat, string))
    ensures |r.1| <= |s|
  {
    if s != "" && IsDigit(s[0]) then ScanDigits(s[1..], n * 10 + DigitValue(s[0])) else (n, s)
  }

  function Pow10(e: int): real
    decreases if e < 0 then -e else e
  {
    if e == 0 then 1.0 else if e > 0 then 10.0 * Pow10(e - 1) else Pow10(e + 1) / 10.0
  }

  /** The digits before the point: at most one leading zero, then a run that starts with 1 to 9. */
  function ScanInteger(s: string): (r: (nat, string))
    ensures |r.1| <= |s|
    ensures s != "" && IsDigit(s[0]) ==> |r.1| < |s|
  {
    var s1 := if Head(s) == '0' then s[1..] else s;
    if '1' <= Head(s1) <= '9' then ScanDigits(s1[1..], DigitValue(s1[0])) else (0, s1)
  }

  /** The digits after the point go on accumulating; the scale counts them. */
  function ScanFraction(n: nat, s: string): (r: (nat, int, string))
    ensures |r.2| <= |s|
  {
    if |s| >= 2 && s[0] == '.' && IsDigit(s[1]) then
      var (m, rest) := ScanDigits(s[1..], n);
      (m, |rest| - |s[1..]|, rest)
    else (n, 0, s)
  }

  function ScanExponent(s: string): (r: (int, string))
    ensures |r.1| <= |s|
  {
    if Head(s) == 'e' || Head(s) == 'E' then
      var s1 := s[1..];
      var signed := Head(s1) == '+' || Head(s1) == '-';
      var (e, rest) := ScanDigits(if signed then s1[1..] else s1, 0);
      var exponent: int := if Head(s1) == '-' then -1 * (e as int) else e as int;
      (exponent, rest)
    else (0, s)
  }

  function NumberValue(sign: real, n: nat, e: int): real {
    sign * n as real * Pow10(e)
  }

  function ParseNumber(s: string): (r: (real, string))
    requires s != "" && (s[0] == '-' || IsDigit(s[0]))
    ensures |r.1| < |s|
  {
    var negative := s[0] == '-';
    var (n, s1) := ScanInteger(if negative then s[1..] else s);
    var (m, scale, s2) := ScanFraction(n, s1);
    var (e, rest) := ScanExponent(s2);
    (NumberValue(if negative then -1.0 else 1.0, m, scale + e), rest)
  }

  predicate IsHex(c: char) {
    IsDigit(c) || 'A' <= c <= 'F' || 'a' <= c <= 'f'
  }

  function HexValue(c: char): nat
    requires IsHex(c)
  {
    if IsDigit(c) then c as int - '0' as int
    else if 'A' <= c <= 'F' then 10 + c as int - 'A' as int
    else 10 + c as int - 'a' as int
  }

  /** Four hexadecimal digits, or 0 when one of them is not a digit. */
  function ParseHex4(s: string): (h: nat)
    requires |s| >= 4
    ensures h < 0x1_0000
  {
    if IsHex(s[0]) && IsHex(s[1]) && IsHex(s[2]) && IsHex(s[3]) then
      ((HexValue(s[0]) * 16 + HexValue(s[1])) * 16 + HexValue(s[2])) * 16 + HexValue(s[3])
    else 0
  }

  /** An escape is complete when four characters of the literal follow its `u`. */
  predicate FourCharacters(s: string) {
    |s| >= 4 && forall i | 0 <= i < 4 :: s[i] != '\"' && s[i] != '\\' && s[i] != NUL
  }

  /** `(char)n` */
  function Byte(n: nat): char {
    (n % 256) as char
  }

  function Utf8Length(uc: nat): nat {
    if uc < 0x80 then 1 else if uc < 0x800 then 2 else if uc < 0x1_0000 then 3 else 4
  }

  const FIRST_BYTE_MARK: seq<nat> := [0x00, 0x00, 0xC0, 0xE0, 0xF0, 0xF8, 0xFC]

  /** The bytes of a code, filled in from the last one backwards: six bits each, then the mark. */
  function EncodeBytes(uc: nat, len: nat, mark: nat): string
    requires len >= 1
  {
    if len == 1 then [Byte(Or(uc, mark))]
    else EncodeBytes(uc / 64, len - 1, mark) + [Byte(And(Or(uc, 0x80), 0xBF))]
  }

  function Encode(uc: nat): string {
    EncodeBytes(uc, Utf8Length(uc), FIRST_BYTE_MARK[Utf8Length(uc)])
  }

  function SurrogatePair(uc: nat, uc2: nat): nat {
    0x1_0000 + Or(And(uc, 0x3FF) * 1024, And(uc2, 0x3FF))
  }

  /** A `\u` escape; `s` starts after the `u`. An invalid code yields no character at all. */
  function Transcode(s: string): (r: Parsed<string>)
    ensures r.Parsed? ==> |r.rest| < |s|
  {
    if !FourCharacters(s) then Incomplete
    else
      var uc, s1 := ParseHex4(s), s[4..];
      if 0xDC00 <= uc <= 0xDFFF || uc == 0 then Parsed("", s1)
      else if 0xD800 <= uc <= 0xDBFF then
        if |s1| < 2 || s1[0] != '\\' || s1[1] != 'u' then Parsed("", s1)
        else if !FourCharacters(s1[2..]) then Incomplete
        else
          var uc2, s2 := ParseHex4(s1[2..]), s1[6..];
          if uc2 < 0xDC00 || uc2 > 0xDFFF then Parsed("", s2)
          else Parsed(Encode(SurrogatePair(uc, uc2)), s2)
      else Parsed(Encode(uc), s1)
  }

  function SimpleEscape(c: char): char {
    match c
    case 'b' => '\U{0008}'
    case 'f' => '\U{000C}'
    case 'n' => '\n'
    case 'r' => '\r'
    case 't' => '\t'
    case _ => c
  }

  /** The body of a literal up to its closing quote; the end of the text closes it as well. */
  function Unescape(s: string): (r: Parsed<string>)
    ensures r.Parsed? ==> |r.rest| <= |s|
  {
    if s == "" then Parsed("", "")
    else if s[0] == '\"' then Parsed("", s[1..])
    else if s[0] != '\\' then
      var (tail, rest) :- Unescape(s[1..]);
      Parsed([s[0]] + tail, rest)
    else if |s| == 1 then Incomplete
    else if s[1] == 'u' then
      var (bytes, s1) :- Transcode(s[2..]);
      var (tail, rest) :- Unescape(s1);
      Parsed(bytes + tail, rest)
    else
      var (tail, rest) :- Unescape(s[2..]);
      Parsed([SimpleEscape(s[1])] + tail, rest)
  }

  function ParseString(s: string): (r: Parsed<string>)
    ensures r.Parsed? ==> |r.rest| < |s|
  {
    if Head(s) != '\"' then Failed else Unescape(s[1..])
  }

  function ParseValue(s: string): (r: Parsed<Json>)
    ensures r.Parsed? ==> |r.rest| < |s|
    decreases |s|, 0
  {
    if "null" <= s then Parsed(Null, s[4..])
    else if "false" <= s then Parsed(False, s[5..])
    else if "true" <= s then Parsed(True, s[4..])
    else if Head(s) == '\"' then
      var (text, rest) :- ParseString(s);
      Parsed(Str(text), rest)
    else if Head(s) == '-' || IsDigit(Head(s)) then
      var (d, rest) := ParseNumber(s);
      Parsed(Number(d), rest)
    else if Head(s) == '[' then
      var s1 := Skip(s[1..]);
      if Head(s1) == ']' then Parsed(Arr([]), s1[1..])
      else
        var (items, rest) :- ParseItems(s1);
        Parsed(Arr(items), rest)
    else if Head(s) == '{' then
      var s1 := Skip(s[1..]);
      if Head(s1) == '}' then Parsed(Obj([]), s1[1..])
      else
        var (members, rest) :- ParseMembers(s1);
        Parsed(Obj(members), rest)
    else Failed
  }

  /** Items separated by commas up to the closing bracket. */
  function ParseItems(s: string): (r: Parsed<seq<Json>>)
    ensures r.Parsed? ==> |r.rest| < |s|
    decreases |s|, 1
  {
    var (v, r1) :- ParseValue(Skip(s));
    var s1 := Skip(r1);
    if Head(s1) == ',' then
      var (items, rest) :- ParseItems(s1[1..]);
      Parsed([v] + items, rest)
    else if Head(s1) == ']' then Parsed([v], s1[1..])
    else Failed
  }

  /** One `name : value` pair. */
  function ParseMember(s: string): (r: Parsed<Member>)
    ensures r.Parsed? ==> |r.rest| < |s|
    decreases |s|, 1
  {
    var (name, r1) :- ParseString(Skip(s));
    var s1 := Skip(r1);
    if Head(s1) != ':' then Failed
    else
      var (v, rest) :- ParseValue(Skip(s1[1..]));
      Parsed(Member(name, v), rest)
  }

  /** Members separated by commas up to the closing brace. */
  function ParseMembers(s: string): (r: Parsed<seq<Member>>)
    ensures r.Parsed? ==> |r.rest| < |s|
    decreases |s|, 2
  {
    var (m, r1) :- ParseMember(s);
    var s1 := Skip(r1);
    if Head(s1) == ',' then
      var (members, rest) :- ParseMembers(s1[1..]);
      Parsed([m] + members, rest)
    else if Head(s1) == '}' then Parsed([m], s1[1..])
    else Failed
  }
}
