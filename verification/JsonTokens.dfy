/** The literals and numbers that cJSON.c accepts, as grammars of their own, and that parsing reads exactly
    these: whatever is accepted is one of them, and every one of them is accepted. */
module JsonTokens {

  import opened CString
  import opened Json
  import opened JsonParse
  import opened JsonScalars
  import opened JsonUnicode

  // ----- the body of a literal -----

  /** A character, an escape of one character, or the escapes of one code or of two that belong together. */
  datatype Piece =
    | Char(c: char)
    | Escaped(c: char)
    | Code(hex: string)
    | Surrogates(high: string, low: string)

  predicate IsHigh(v: nat) {
    0xD800 <= v <= 0xDBFF
  }

  predicate IsLow(v: nat) {
    0xDC00 <= v <= 0xDFFF
  }

  /** The number that four hexadecimal digits spell; any other four characters count as zero. */
  function CodeOf(hex: string): nat
    requires |hex| == 4
  {
    if forall i | 0 <= i < 4 :: IsHex(hex[i]) then
      0x1000 * HexValue(hex[0]) + 0x100 * HexValue(hex[1]) + 0x10 * HexValue(hex[2]) + HexValue(hex[3])
    else 0
  }

  function PieceText(p: Piece, rest: string): string {
    match p
    case Char(c) => [c] + rest
    case Escaped(c) => ['\\', c] + rest
    case Code(hex) => "\\u" + (hex + rest)
    case Surrogates(high, low) => "\\u" + (high + ("\\u" + (low + rest)))
  }

  function PiecesText(ps: seq<Piece>, rest: string): string {
    if ps == [] then rest else PieceText(ps[0], PiecesText(ps[1..], rest))
  }

  /** Four characters as they may follow `\u`. */
  predicate Four(hex: string) {
    |hex| == 4 && FourCharacters(hex)
  }

  predicate PieceOk(p: Piece) {
    match p
    case Char(c) => c != '\"' && c != '\\'
    case Escaped(c) => c != 'u'
    case Code(hex) => Four(hex)
    case Surrogates(high, low) => Four(high) && Four(low) && IsHigh(CodeOf(high))
  }

  /** A high half stands alone only in front of something else than a code. */
  predicate Alone(p: Piece, ps: seq<Piece>)
    requires PieceOk(p)
  {
    p.Code? && IsHigh(CodeOf(p.hex)) && ps != [] ==> !ps[0].Code? && !ps[0].Surrogates?
  }

  predicate PiecesOk(ps: seq<Piece>) {
    ps != [] ==> PieceOk(ps[0]) && Alone(ps[0], ps[1..]) && PiecesOk(ps[1..])
  }

  /** RFC 8259, section 7; what has no meaning there stands for itself. */
  function EscapeMeaning(c: char): char {
    if c == 'b' then 8 as char
    else if c == 't' then 9 as char
    else if c == 'n' then 10 as char
    else if c == 'f' then 12 as char
    else if c == 'r' then 13 as char
    else c
  }

  /** A code is encoded if it is a character; halves that do not belong together yield nothing. */
  function PieceValue(p: Piece): string
    requires PieceOk(p)
  {
    match p
    case Char(c) => [c]
    case Escaped(c) => [EscapeMeaning(c)]
    case Code(hex) => if IsScalar(CodeOf(hex)) then Utf8(CodeOf(hex)) else ""
    case Surrogates(high, low) =>
      if IsLow(CodeOf(low)) then Utf8(0x1_0000 + (CodeOf(high) - 0xD800) * 0x400 + (CodeOf(low) - 0xDC00)) else ""
  }

  function PiecesValue(ps: seq<Piece>): string
    requires PiecesOk(ps)
  {
    if ps == [] then "" else PieceValue(ps[0]) + PiecesValue(ps[1..])
  }

  /** The end of a literal. */
  function Close(closed: bool, rest: string): string {
    if closed then "\"" + rest else rest
  }

  lemma HexAgrees(hex: string, tail: string)
    requires Four(hex)
    ensures FourCharacters(hex + tail) && ParseHex4(hex + tail) == CodeOf(hex)
    ensures (hex + tail)[4..] == tail
  {}

  lemma TranscodeCode(hex: string, tail: string)
    requires Four(hex) && (IsHigh(CodeOf(hex)) ==> !("\\u" <= tail))
    ensures Transcode(hex + tail) == Parsed(PieceValue(Code(hex)), tail)
  {
    hide Encode, Utf8;
    HexAgrees(hex, tail);
    var v := CodeOf(hex);
    if IsScalar(v) {
      EncodeIsUtf8(v);
    }
    assert |tail| >= 2 && tail[0] == '\\' && tail[1] == 'u' ==> "\\u" <= tail;
  }

  lemma CombinedPair(high: nat, low: nat)
    requires IsHigh(high) && IsLow(low)
    ensures var v := 0x1_0000 + (high - 0xD800) * 0x400 + (low - 0xDC00);
      IsScalar(v) && Encode(SurrogatePair(high, low)) == Utf8(v)
  {
    hide Encode, Utf8, SurrogatePair;
    var v := 0x1_0000 + (high - 0xD800) * 0x400 + (low - 0xDC00);
    assert (v - 0x1_0000) / 0x400 == high - 0xD800 && (v - 0x1_0000) % 0x400 == low - 0xDC00;
    SurrogatesCombine(v);
    EncodeIsUtf8(v);
  }

  lemma TranscodePair(high: string, low: string, tail: string)
    requires PieceOk(Surrogates(high, low))
    ensures Transcode(high + ("\\u" + (low + tail))) == Parsed(PieceValue(Surrogates(high, low)), tail)
  {
    hide Encode, Utf8, SurrogatePair, CodeOf;
    var s1 := "\\u" + (low + tail);
    HexAgrees(high, s1);
    HexAgrees(low, tail);
    assert s1[2..] == low + tail && s1[6..] == tail;
    if IsLow(CodeOf(low)) {
      CombinedPair(CodeOf(high), CodeOf(low));
    }
  }

  /** One piece is read as its value. */
  lemma UnescapePiece(p: Piece, tail: string)
    requires PieceOk(p) && Unescape(tail).Parsed?
    requires p.Code? && IsHigh(CodeOf(p.hex)) ==> !("\\u" <= tail)
    ensures Unescape(PieceText(p, tail)) == Parsed(PieceValue(p) + Unescape(tail).value, Unescape(tail).rest)
  {
    hide Transcode, Utf8, CodeOf;
    var s := PieceText(p, tail);
    match p
    case Char(c) => assert s[1..] == tail;
    case Escaped(c) =>
      assert s[2..] == tail;
      assert SimpleEscape(c) == EscapeMeaning(c);
    case Code(hex) =>
      TranscodeCode(hex, tail);
      assert s[2..] == hex + tail;
    case Surrogates(high, low) =>
      TranscodePair(high, low, tail);
      assert s[2..] == high + ("\\u" + (low + tail));
  }

  lemma NoCodeAhead(ps: seq<Piece>, rest: string)
    requires PiecesOk(ps) && (ps != [] ==> !ps[0].Code? && !ps[0].Surrogates?) && !("\\u" <= rest)
    ensures !("\\u" <= PiecesText(ps, rest))
  {
    if ps != [] {
      var s := PiecesText(ps, rest);
      assert ps[0].Char? ==> s[0] == ps[0].c;
      assert ps[0].Escaped? ==> s[1] == ps[0].c;
    }
  }

  /** Every body of a literal is read as its value. */
  lemma {:induction false} UnescapePieces(ps: seq<Piece>, closed: bool, rest: string)
    requires PiecesOk(ps) && (closed || rest == "")
    ensures Unescape(PiecesText(ps, Close(closed, rest))) == Parsed(PiecesValue(ps), rest)
  {
    hide Unescape, PieceText;
    var end := Close(closed, rest);
    if ps == [] {
      UnescapeClose(closed, rest);
    } else {
      UnescapePieces(ps[1..], closed, rest);
      if ps[0].Code? && IsHigh(CodeOf(ps[0].hex)) {
        assert closed ==> end[0] == '\"';
        NoCodeAhead(ps[1..], end);
      }
      UnescapePiece(ps[0], PiecesText(ps[1..], end));
    }
  }

  lemma UnescapeClose(closed: bool, rest: string)
    requires closed || rest == ""
    ensures Unescape(Close(closed, rest)) == Parsed("", rest)
  {
    if closed { assert ("\"" + rest)[1..] == rest; }
  }

  /** What an accepted body starts with. */
  lemma FirstPiece(s: string) returns (p: Piece, tail: string)
    requires s != "" && s[0] != '\"' && Unescape(s).Parsed?
    ensures PieceOk(p) && s == PieceText(p, tail) && |tail| < |s| && Unescape(tail).Parsed?
    ensures p.Code? && IsHigh(CodeOf(p.hex)) ==> !("\\u" <= tail)
  {
    if s[0] != '\\' {
      p, tail := Char(s[0]), s[1..];
    } else if s[1] != 'u' {
      p, tail := Escaped(s[1]), s[2..];
    } else {
      p, tail := FirstCode(s);
    }
  }

  lemma FirstCode(s: string) returns (p: Piece, tail: string)
    requires |s| >= 2 && s[0] == '\\' && s[1] == 'u' && Unescape(s).Parsed?
    ensures PieceOk(p) && s == PieceText(p, tail) && |tail| < |s| && Unescape(tail).Parsed?
    ensures p.Code? && IsHigh(CodeOf(p.hex)) ==> !("\\u" <= tail)
  {
    hide Encode, Utf8, SurrogatePair;
    var hex, s1 := s[2..6], s[6..];
    assert s[2..] == hex + s1;
    HexAgrees(hex, s1);
    if IsHigh(CodeOf(hex)) && "\\u" <= s1 {
      assert s1[0] == '\\' && s1[1] == 'u';
      var low, s2 := s1[2..6], s1[6..];
      assert s1 == "\\u" + (low + s2);
      assert s1[2..] == low + s2;
      p, tail := Surrogates(hex, low), s2;
    } else {
      p, tail := Code(hex), s1;
    }
  }

  /** Whatever is accepted as the rest of a literal is made of such pieces. */
  lemma {:induction false} AcceptedPieces(s: string) returns (ps: seq<Piece>, closed: bool)
    requires Unescape(s).Parsed?
    ensures PiecesOk(ps) && (closed || Unescape(s).rest == "")
    ensures s == PiecesText(ps, Close(closed, Unescape(s).rest)) && Unescape(s).value == PiecesValue(ps)
    decreases |s|
  {
    if s == "" {
      ps, closed := [], false;
    } else if s[0] == '\"' {
      ps, closed := [], true;
      assert s == "\"" + s[1..];
    } else {
      hide Unescape, PieceText, CodeOf;
      var p, tail := FirstPiece(s);
      var qs;
      qs, closed := AcceptedPieces(tail);
      UnescapePiece(p, tail);
      ps := [p] + qs;
      assert ps[1..] == qs;
      if qs != [] && (qs[0].Code? || qs[0].Surrogates?) {
        CodeAhead(qs, Close(closed, Unescape(tail).rest));
      }
    }
  }

  lemma CodeAhead(ps: seq<Piece>, rest: string)
    requires ps != [] && (ps[0].Code? || ps[0].Surrogates?)
    ensures "\\u" <= PiecesText(ps, rest)
  {}

  // ----- numbers -----

  datatype Exponent = NoExponent | Exponent(mark: char, sign: string, digits: string)

  /** A sign, a zero, digits, a fraction and an exponent. The C code does without any of them where a digit
      or the sign starts the number. */
  datatype Numeral = Numeral(minus: bool, zero: bool, digits: string, fraction: string, exponent: Exponent)

  predicate ExponentOk(e: Exponent) {
    e.Exponent? ==> (e.mark == 'e' || e.mark == 'E') && (e.sign == "" || e.sign == "+" || e.sign == "-") && AllDigits(e.digits)
  }

  predicate NumeralOk(n: Numeral) {
    && (n.minus || n.zero || n.digits != "")
    && AllDigits(n.digits) && (n.digits != "" ==> n.digits[0] != '0')
    && AllDigits(n.fraction) && ExponentOk(n.exponent)
  }

  function ExponentText(e: Exponent, rest: string): string {
    if e.NoExponent? then rest else [e.mark] + (e.sign + (e.digits + rest))
  }

  function FractionText(fraction: string, rest: string): string {
    if fraction == "" then rest else "." + (fraction + rest)
  }

  function NumeralText(n: Numeral, rest: string): string {
    (if n.minus then "-" else "") + ((if n.zero then "0" else "")
      + (n.digits + FractionText(n.fraction, ExponentText(n.exponent, rest))))
  }

  /** Nothing in the text behind it belongs to the number. */
  predicate ExponentEnds(e: Exponent, rest: string) {
    match e
    case NoExponent => Head(rest) != 'e' && Head(rest) != 'E'
    case Exponent(_, sign, digits) =>
      !IsDigit(Head(rest)) && (sign == "" && digits == "" ==> Head(rest) != '+' && Head(rest) != '-')
  }

  predicate FractionEnds(fraction: string, rest: string) {
    if fraction == "" then !(|rest| >= 2 && rest[0] == '.' && IsDigit(rest[1])) else !IsDigit(Head(rest))
  }

  predicate IntegerEnds(zero: bool, digits: string, rest: string) {
    if digits != "" then !IsDigit(Head(rest)) else !('1' <= Head(rest) <= '9') && (Head(rest) == '0' ==> zero)
  }

  predicate NumeralEnds(n: Numeral, rest: string) {
    var s1 := ExponentText(n.exponent, rest);
    ExponentEnds(n.exponent, rest) && FractionEnds(n.fraction, s1) && IntegerEnds(n.zero, n.digits, FractionText(n.fraction, s1))
  }

  function ExponentValue(e: Exponent): int
    requires ExponentOk(e)
  {
    if e.NoExponent? then 0 else if e.sign == "-" then -(Horner(e.digits, 0) as int) else Horner(e.digits, 0)
  }

  /** All digits together, shifted by the exponent and by the length of the fraction. */
  function NumeralValue(n: Numeral): real
    requires NumeralOk(n)
  {
    (if n.minus then -1.0 else 1.0) * Horner(n.digits + n.fraction, 0) as real
      * Pow10(ExponentValue(n.exponent) - |n.fraction|)
  }

  /** Powers of ten in both directions. */
  lemma Pow10Steps(e: int)
    ensures Pow10(0) == 1.0 && Pow10(e + 1) == 10.0 * Pow10(e)
  {}

  lemma {:induction false} HornerJoins(a: string, b: string, n: nat)
    requires AllDigits(a) && AllDigits(b)
    ensures Horner(a + b, n) == Horner(b, Horner(a, n))
  {
    if a == "" {
      assert a + b == b;
    } else {
      assert (a + b)[1..] == a[1..] + b;
      HornerJoins(a[1..], b, n * 10 + DigitValue(a[0]));
    }
  }

  lemma IntegerReads(zero: bool, digits: string, rest: string)
    requires AllDigits(digits) && (digits != "" ==> digits[0] != '0') && IntegerEnds(zero, digits, rest)
    ensures ScanInteger((if zero then "0" else "") + (digits + rest)) == (Horner(digits, 0), rest)
  {
    hide ScanDigits;
    var s1 := digits + rest;
    assert "" + s1 == s1 && ("0" + s1)[1..] == s1;
    if digits == "" {
      assert s1 == rest;
    } else {
      LeadingDigit(digits, rest);
    }
  }

  /** From the first digit on. */
  lemma LeadingDigit(digits: string, rest: string)
    requires AllDigits(digits) && digits != "" && !IsDigit(Head(rest))
    ensures var s := digits + rest;
      s[0] == digits[0] && ScanDigits(s[1..], DigitValue(s[0])) == (Horner(digits, 0), rest)
  {
    assert (digits + rest)[1..] == digits[1..] + rest;
    ScanDigitsIsHorner(digits[1..], DigitValue(digits[0]), rest);
    assert 0 * 10 + DigitValue(digits[0]) == DigitValue(digits[0]);
  }

  lemma FractionReads(n: nat, fraction: string, rest: string)
    requires AllDigits(fraction) && FractionEnds(fraction, rest)
    ensures ScanFraction(n, FractionText(fraction, rest)) == (Horner(fraction, n), -|fraction|, rest)
  {
    if fraction != "" {
      var s := "." + (fraction + rest);
      assert s[1..] == fraction + rest && s[1] == fraction[0];
      ScanDigitsIsHorner(fraction, n, rest);
    }
  }

  lemma ExponentReads(e: Exponent, rest: string)
    requires ExponentOk(e) && ExponentEnds(e, rest)
    ensures ScanExponent(ExponentText(e, rest)) == (ExponentValue(e), rest)
  {
    if e.Exponent? {
      var tail := e.digits + rest;
      var s1 := e.sign + tail;
      var s := [e.mark] + s1;
      assert s[1..] == s1;
      ScanDigitsIsHorner(e.digits, 0, rest);
      if e.sign == "" {
        assert s1 == tail;
        assert e.digits != "" ==> Head(s1) == e.digits[0];
        assert e.digits == "" ==> s1 == rest;
      } else {
        assert s1[1..] == tail && s1[0] == e.sign[0];
      }
    }
  }

  /** Every number is read as its value, up to the text behind it. */
  lemma NumeralReads(n: Numeral, rest: string)
    requires NumeralOk(n) && NumeralEnds(n, rest)
    ensures var s := NumeralText(n, rest);
      s != "" && (s[0] == '-' || IsDigit(s[0])) && ParseNumber(s) == (NumeralValue(n), rest)
  {
    hide ScanInteger, ScanFraction, ScanExponent, ExponentText, FractionText, Pow10;
    var s2 := ExponentText(n.exponent, rest);
    var s1 := FractionText(n.fraction, s2);
    var s0 := (if n.zero then "0" else "") + (n.digits + s1);
    var s := NumeralText(n, rest);
    assert if n.minus then s[0] == '-' && s[1..] == s0 else s == s0;
    assert n.zero ==> s0[0] == '0';
    assert !n.zero ==> s0 == n.digits + s1;
    assert n.digits != "" ==> (n.digits + s1)[0] == n.digits[0];
    assert !n.minus ==> IsDigit(s0[0]) && s == s0;
    assert n.minus ==> s == "-" + s0;
    IntegerReads(n.zero, n.digits, s1);
    FractionReads(Horner(n.digits, 0), n.fraction, s2);
    ExponentReads(n.exponent, rest);
    HornerJoins(n.digits, n.fraction, 0);
    var sign := if n.minus then -1.0 else 1.0;
    var e := ExponentValue(n.exponent);
    assert ParseNumber(s) == (NumberValue(sign, Horner(n.fraction, Horner(n.digits, 0)), -|n.fraction| + e), rest);
    assert -|n.fraction| + e == e - |n.fraction|;
    NumeralValueAs(n, sign);
  }

  lemma NumeralValueAs(n: Numeral, sign: real)
    requires NumeralOk(n) && sign == if n.minus then -1.0 else 1.0
    ensures NumeralValue(n) == NumberValue(sign, Horner(n.digits + n.fraction, 0), ExponentValue(n.exponent) - |n.fraction|)
  {
    hide Horner, Pow10, ExponentValue;
  }

  // Whatever the scanning functions take is such a part of a number.

  lemma {:induction false} TakenDigits(s: string, n: nat) returns (digits: string)
    ensures AllDigits(digits) && s == digits + ScanDigits(s, n).1 && !IsDigit(Head(ScanDigits(s, n).1))
  {
    if s != "" && IsDigit(s[0]) {
      var tail := TakenDigits(s[1..], n * 10 + DigitValue(s[0]));
      digits := [s[0]] + tail;
    } else {
      digits := "";
      assert "" + s == s;
    }
  }

  lemma TakenInteger(s: string) returns (zero: bool, digits: string)
    ensures AllDigits(digits) && (digits != "" ==> digits[0] != '0')
    ensures s == (if zero then "0" else "") + (digits + ScanInteger(s).1)
    ensures IntegerEnds(zero, digits, ScanInteger(s).1)
    ensures s != "" && IsDigit(s[0]) ==> zero || digits != ""
  {
    zero := Head(s) == '0';
    var s1 := if zero then s[1..] else s;
    assert s == (if zero then "0" else "") + s1;
    if '1' <= Head(s1) <= '9' {
      var tail := TakenDigits(s1[1..], DigitValue(s1[0]));
      digits := [s1[0]] + tail;
      assert s1 == digits + ScanInteger(s).1;
    } else {
      digits := "";
      assert "" + s1 == s1;
    }
  }

  lemma TakenFraction(n: nat, s: string) returns (fraction: string)
    ensures AllDigits(fraction) && s == FractionText(fraction, ScanFraction(n, s).2)
    ensures FractionEnds(fraction, ScanFraction(n, s).2)
  {
    if |s| >= 2 && s[0] == '.' && IsDigit(s[1]) {
      fraction := TakenDigits(s[1..], n);
      assert fraction != "" by { assert s[1..][0] == s[1]; }
      assert s == "." + s[1..];
    } else {
      fraction := "";
    }
  }

  lemma TakenExponent(s: string) returns (e: Exponent)
    ensures ExponentOk(e) && s == ExponentText(e, ScanExponent(s).1) && ExponentEnds(e, ScanExponent(s).1)
  {
    hide ScanDigits;
    if Head(s) == 'e' || Head(s) == 'E' {
      var s1 := s[1..];
      var signed := Head(s1) == '+' || Head(s1) == '-';
      var s2 := if signed then s1[1..] else s1;
      var digits := TakenDigits(s2, 0);
      var sign := if signed then [s1[0]] else "";
      e := Exponent(s[0], sign, digits);
      assert s1 == sign + s2 && s == [s[0]] + s1;
      assert digits == "" ==> s2 == ScanExponent(s).1;
    } else {
      e := NoExponent;
    }
  }

  /** Whatever is accepted as a number is one of them. */
  lemma AcceptedNumeral(s: string) returns (n: Numeral)
    requires s != "" && (s[0] == '-' || IsDigit(s[0]))
    ensures NumeralOk(n) && NumeralEnds(n, ParseNumber(s).1)
    ensures s == NumeralText(n, ParseNumber(s).1) && ParseNumber(s).0 == NumeralValue(n)
  {
    hide ScanInteger, ScanFraction, ScanExponent, Horner, NumberValue;
    var minus := s[0] == '-';
    var s0 := if minus then s[1..] else s;
    assert s == (if minus then "-" else "") + s0;
    var zero, digits := TakenInteger(s0);
    var (m, s1) := ScanInteger(s0);
    var fraction := TakenFraction(m, s1);
    var (m', scale, s2) := ScanFraction(m, s1);
    var e := TakenExponent(s2);
    n := Numeral(minus, zero, digits, fraction, e);
    NumeralReads(n, ParseNumber(s).1);
  }
}
