/** Scalars read back from their printed form: decimal integers and escaped strings. */
module JsonScalars {

  import opened Bits
  import opened CString
  import opened Json
  import opened JsonParse
  import opened JsonPrint

  predicate AllDigits(s: string) {
    forall i | 0 <= i < |s| :: IsDigit(s[i])
  }

  /** A text after which a number ends where it was meant to end. */
  predicate EndsNumber(rest: string) {
    !IsDigit(Head(rest)) && Head(rest) != '.' && Head(rest) != 'e' && Head(rest) != 'E'
  }

  /** The number that a run of digits appends to `n`. */
  function Horner(s: string, n: nat): nat
    requires AllDigits(s)
  {
    if s == "" then n else Horner(s[1..], n * 10 + DigitValue(s[0]))
  }

  lemma {:induction false} ScanDigitsIsHorner(s: string, n: nat, rest: string)
    requires AllDigits(s) && !IsDigit(Head(rest))
    ensures ScanDigits(s + rest, n) == (Horner(s, n), rest)
  {
    if s == "" {
      assert s + rest == rest;
    } else {
      assert (s + rest)[1..] == s[1..] + rest;
      ScanDigitsIsHorner(s[1..], n * 10 + DigitValue(s[0]), rest);
    }
  }

  lemma {:induction false} HornerAppend(s: string, c: char, n: nat)
    requires AllDigits(s) && IsDigit(c)
    ensures AllDigits(s + [c]) && Horner(s + [c], n) == Horner(s, n) * 10 + DigitValue(c)
  {
    if s == "" {
      assert s + [c] == [c] && [c][1..] == "";
    } else {
      assert (s + [c])[1..] == s[1..] + [c];
      HornerAppend(s[1..], c, n * 10 + DigitValue(s[0]));
    }
  }

  lemma {:induction false} DigitsReadBack(n: nat)
    ensures AllDigits(Digits(n)) && Digits(n) != "" && Horner(Digits(n), 0) == n
    ensures n > 0 ==> Digits(n)[0] != '0'
  {
    if n < 10 {
      assert Digits(n) == [Digit(n)] && Digits(n)[1..] == "";
      assert Horner("", n) == n;
    } else {
      DigitsReadBack(n / 10);
      HornerAppend(Digits(n / 10), Digit(n % 10), 0);
    }
  }

  lemma ScanIntegerReadsDigits(n: nat, rest: string)
    requires !IsDigit(Head(rest))
    ensures ScanInteger(Digits(n) + rest) == (n, rest)
  {
    DigitsReadBack(n);
    var s := Digits(n);
    if n == 0 {
      assert (s + rest)[1..] == rest;
    } else {
      assert (s + rest)[1..] == s[1..] + rest;
      ScanDigitsIsHorner(s[1..], DigitValue(s[0]), rest);
      assert 0 * 10 + DigitValue(s[0]) == DigitValue(s[0]);
    }
  }

  /** A printed integer is read back exactly, up to the text that follows it. */
  lemma NumberReadsBack(d: real, rest: string)
    requires IsInt32(d) && EndsNumber(rest)
    ensures ParseNumber.requires(PrintNumber(d) + rest)
    ensures ParseNumber(PrintNumber(d) + rest) == (d, rest)
  {
    var n := d.Floor;
    var m: nat := if n < 0 then -n else n;
    var text := PrintNumber(d) + rest;
    DigitsReadBack(m);
    ScanIntegerReadsDigits(m, rest);
    if n < 0 {
      assert text == "-" + (Digits(m) + rest);
      assert text[1..] == Digits(m) + rest;
    } else {
      assert text == Digits(m) + rest;
      assert text[0] == Digits(m)[0];
    }
    assert ScanFraction(m, rest) == (m, 0, rest);
    assert ScanExponent(rest) == (0, rest);
    assert Pow10(0) == 1.0;
  }

  /** The digits, in either case. */
  lemma HexTable(i: nat)
    requires i < 16
    ensures var c := "0123456789abcdef"[i]; IsHex(c) && HexValue(c) == i
    ensures var c := "0123456789ABCDEF"[i]; IsHex(c) && HexValue(c) == i
  {}

  lemma HexDigitReadsBack(d: nat)
    requires d < 16
    ensures IsHex(HexDigit(d)) && HexValue(HexDigit(d)) == d
    ensures HexDigit(d) != '\"' && HexDigit(d) != '\\' && HexDigit(d) != NUL
  {}

  lemma Hex4ReadsBack(n: nat, rest: string)
    requires n < 0x1_0000
    ensures FourCharacters(Hex4(n) + rest)
    ensures ParseHex4(Hex4(n) + rest) == n
  {
    HexDigitReadsBack(n / 0x1000);
    HexDigitReadsBack(n / 0x100 % 16);
    HexDigitReadsBack(n / 16 % 16);
    HexDigitReadsBack(n % 16);
    assert n / 0x100 == n / 0x1000 * 16 + n / 0x100 % 16;
  }

  lemma Hex4Plain(n: nat)
    requires n < 0x1_0000
    ensures forall i | 0 <= i < 4 :: Hex4(n)[i] != '\"' && Hex4(n)[i] != '\\' && Hex4(n)[i] != NUL
  {
    Hex4ReadsBack(n, "");
    assert Hex4(n) + "" == Hex4(n);
  }

  lemma EncodeAscii(uc: nat)
    requires uc < 0x80
    ensures Encode(uc) == [uc as char]
  {
    assert Or(uc, 0) == uc;
    assert EncodeBytes(uc, 1, FIRST_BYTE_MARK[1]) == [Byte(uc)];
  }

  lemma UnescapeQuote(rest: string)
    ensures Unescape("\"" + rest) == Parsed("", rest)
  {
    assert ("\"" + rest)[1..] == rest;
  }

  lemma {:induction false} UnescapeEscaped(s: string, rest: string)
    requires NulFree(s)
    ensures Unescape(Escape(s) + "\"" + rest) == Parsed(s, rest)
  {
    hide Unescape, EscapeChar;
    if s == "" {
      UnescapeQuote(rest);
      assert Escape(s) + "\"" + rest == "\"" + rest;
    } else {
      UnescapeEscaped(s[1..], rest);
      UnescapeChar(s[0], Escape(s[1..]) + "\"" + rest);
      Regroup(EscapeChar(s[0]), Escape(s[1..]), "\"", rest);
      assert s == [s[0]] + s[1..];
    }
  }

  lemma Regroup(a: string, b: string, c: string, d: string)
    ensures a + b + c + d == a + (b + c + d)
  {}

  /** One character: its escape is undone and reading goes on behind it. */
  lemma UnescapeChar(c: char, tail: string)
    requires c != NUL && Unescape(tail).Parsed?
    ensures Unescape(EscapeChar(c) + tail) == Parsed([c] + Unescape(tail).value, Unescape(tail).rest)
  {
    var text := EscapeChar(c) + tail;
    if !NeedsEscape(c) {
      assert text[1..] == tail;
    } else if c in "\\\"\U{0008}\U{000C}\n\r\t" {
      assert text[2..] == tail;
      assert text[0] == '\\' && text[1] != 'u' && SimpleEscape(text[1]) == c;
    } else {
      var n := c as int;
      assert n < 0x20;
      assert text == "\\u" + Hex4(n) + tail;
      assert text[2..] == Hex4(n) + tail && (Hex4(n) + tail)[4..] == tail;
      Hex4ReadsBack(n, tail);
      EncodeAscii(n);
      assert Transcode(text[2..]) == Parsed([c], tail);
    }
  }

  lemma StringReadsBack(s: string, rest: string)
    requires NulFree(s)
    ensures ParseString(PrintString(s) + rest) == Parsed(s, rest)
  {
    UnescapeEscaped(s, rest);
    assert (PrintString(s) + rest)[1..] == Escape(s) + "\"" + rest;
  }
}
