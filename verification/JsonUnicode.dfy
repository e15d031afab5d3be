/** `\u` escapes: the transcoding from UTF-16 to UTF-8, against RFC 8259 section 7 and RFC 3629 section 3. */
module JsonUnicode {

  import opened Bits
  import opened CString
  import opened Json
  import opened JsonParse
  import opened JsonScalars

  /** A code that can be written and kept in a C string. */
  predicate IsScalar(v: int) {
    0 < v <= 0x10_FFFF && !(0xD800 <= v <= 0xDFFF)
  }

  /** RFC 3629, section 3. */
  function Utf8(v: nat): string
    requires IsScalar(v)
  {
    if v < 0x80 then [Byte(v)]
    else if v < 0x800 then [Byte(0xC0 + v / 0x40), Continuation(v)]
    else if v < 0x1_0000 then [Byte(0xE0 + v / 0x1000), Continuation(v / 0x40), Continuation(v)]
    else [Byte(0xF0 + v / 0x4_0000), Continuation(v / 0x1000), Continuation(v / 0x40), Continuation(v)]
  }

  /** The lowest six bits behind the mark of a continuation byte. */
  function Continuation(v: nat): char {
    Byte(0x80 + v % 0x40)
  }

  function Utf8All(vs: seq<nat>): string
    requires forall i | 0 <= i < |vs| :: IsScalar(vs[i])
  {
    if vs == [] then "" else Utf8(vs[0]) + Utf8All(vs[1..])
  }

  /** Four hexadecimal digits in any mixture of cases. */
  predicate IsHex4(s: string, v: nat) {
    && |s| == 4 && (forall i | 0 <= i < 4 :: IsHex(s[i]))
    && v == 0x1000 * HexValue(s[0]) + 0x100 * HexValue(s[1]) + 0x10 * HexValue(s[2]) + HexValue(s[3])
  }

  /** How RFC 8259, section 7 writes a code: one escape, or a surrogate pair beyond U+FFFF. */
  predicate IsEscapeOf(s: string, v: nat) {
    if v < 0x1_0000 then |s| == 6 && s[..2] == "\\u" && IsHex4(s[2..], v)
    else
      && |s| == 12 && s[..2] == "\\u" && IsHex4(s[2..6], 0xD800 + (v - 0x1_0000) / 0x400)
      && s[6..8] == "\\u" && IsHex4(s[8..], 0xDC00 + (v - 0x1_0000) % 0x400)
  }

  function Concat(parts: seq<string>): string {
    if parts == [] then "" else parts[0] + Concat(parts[1..])
  }

  // ----- the bit operations -----

  lemma LowBit(a: nat, c: nat, d: nat)
    ensures And(Or(a, 2 * c), 2 * d + 1) == 2 * And(Or(a / 2, c), d) + a % 2
  {
    OrStep(a, 2 * c);
    AndStep(Or(a, 2 * c), 2 * d + 1);
  }

  lemma BitOne(q: nat)
    ensures And(Or(q, 2), 2) == 2
  {
    OrStep(q, 2);
    OrStep(q / 2, 1);
    AndStep(Or(q, 2), 2);
    AndStep(Or(q / 2, 1), 1);
  }

  lemma ThreeLowBits(a: nat, c: nat, d: nat)
    ensures And(Or(a, 8 * c), 8 * d + 7) == 8 * And(Or(a / 8, c), d) + a % 8
  {
    hide And, Or;
    var q := a / 2;
    LowBit(a, 4 * c, 4 * d + 3);
    LowBit(q, 2 * c, 2 * d + 1);
    LowBit(q / 2, c, d);
    assert q / 2 / 2 == a / 8;
  }

  /** `((uc | 0x80) & 0xBF)` */
  lemma ContinuationBits(uc: nat)
    ensures And(Or(uc, 0x80), 0xBF) == 0x80 + uc % 0x40
  {
    hide And, Or;
    ThreeLowBits(uc, 16, 23);
    ThreeLowBits(uc / 8, 2, 2);
    BitOne(uc / 8 / 8);
  }

  /** The mark of a leading byte lies above the bits of the value. */
  lemma LeadingBits(uc: nat, k: nat, mark: nat)
    requires uc < Pow2(k)
    ensures Or(uc, Pow2(k) * mark) == Pow2(k) * mark + uc
  {
    OrAdds(k, mark, uc);
    OrCommutes(uc, Pow2(k) * mark);
  }

  /** A leading byte of 2 to 4, then the continuation bytes from the highest six bits down. */
  lemma EncodeLeading(uc: nat, k: nat, mark: nat)
    requires uc < Pow2(k)
    ensures EncodeBytes(uc, 1, Pow2(k) * mark) == [Byte(Pow2(k) * mark + uc)]
  {
    LeadingBits(uc, k, mark);
  }

  lemma EncodeStep(uc: nat, len: nat, mark: nat)
    requires len > 1
    ensures EncodeBytes(uc, len, mark) == EncodeBytes(uc / 64, len - 1, mark) + [Continuation(uc)]
  {
    ContinuationBits(uc);
  }

  /** The backwards loop of the source yields the bytes of RFC 3629. */
  lemma EncodeIsUtf8(v: nat)
    requires IsScalar(v)
    ensures Encode(v) == Utf8(v)
  {
    hide EncodeBytes, Byte, Continuation;
    assert Pow2(5) == 32 && Pow2(4) == 16 && Pow2(3) == 8;
    if v < 0x80 {
      EncodeAscii(v);
      AsciiByte(v);
    } else if v < 0x800 {
      EncodeLeading(v / 64, 5, 6);
      EncodeStep(v, 2, 0xC0);
    } else if v < 0x1_0000 {
      EncodeLeading(v / 64 / 64, 4, 14);
      EncodeStep(v / 64, 2, 0xE0);
      EncodeStep(v, 3, 0xE0);
    } else {
      EncodeLeading(v / 64 / 64 / 64, 3, 30);
      EncodeStep(v / 64 / 64, 2, 0xF0);
      EncodeStep(v / 64, 3, 0xF0);
      EncodeStep(v, 4, 0xF0);
    }
  }

  lemma AsciiByte(v: nat)
    requires v < 0x80
    ensures Byte(v) == v as char
  {}

  lemma SurrogatesCombine(v: nat)
    requires 0x1_0000 <= v <= 0x10_FFFF
    ensures SurrogatePair(0xD800 + (v - 0x1_0000) / 0x400, 0xDC00 + (v - 0x1_0000) % 0x400) == v
  {
    hide And, Or;
    var high, low := (v - 0x1_0000) / 0x400, (v - 0x1_0000) % 0x400;
    assert Pow2(10) == 1024 by { Pow2Adds(5, 5); }
    AndMask(10, 0xD800 + high);
    AndMask(10, 0xDC00 + low);
    assert (0xD800 + high) % 1024 == high && (0xDC00 + low) % 1024 == low;
    OrAdds(10, high, low);
  }

  // ----- literals made of escapes -----

  lemma Hex4Reads(s: string, v: nat, tail: string)
    requires IsHex4(s, v)
    ensures FourCharacters(s + tail) && ParseHex4(s + tail) == v
  {}

  /** One code, behind its first backslash and `u`. */
  lemma TranscodeEscape(s: string, v: nat, tail: string)
    requires IsScalar(v) && IsEscapeOf(s, v)
    ensures Transcode(s[2..] + tail) == Parsed(Utf8(v), tail)
  {
    hide Encode, Utf8, ParseHex4, FourCharacters, IsHex4, SurrogatePair;
    var text := s[2..] + tail;
    EncodeIsUtf8(v);
    if v < 0x1_0000 {
      Hex4Reads(s[2..], v, tail);
      assert text[4..] == tail;
    } else {
      var high, low := 0xD800 + (v - 0x1_0000) / 0x400, 0xDC00 + (v - 0x1_0000) % 0x400;
      var mid := s[6..] + tail;
      assert text == s[2..6] + mid && text[4..] == mid;
      Hex4Reads(s[2..6], high, mid);
      assert mid[0] == s[6..8][0] && mid[1] == s[6..8][1];
      assert mid[2..] == s[8..] + tail && mid[6..] == tail;
      Hex4Reads(s[8..], low, tail);
      SurrogatesCombine(v);
    }
  }

  /** Every sequence of codes written as escapes is read as its UTF-8 encoding. */
  lemma {:induction false} EscapesBecomeUtf8(escapes: seq<string>, codes: seq<nat>, rest: string)
    requires |escapes| == |codes|
    requires forall i | 0 <= i < |codes| :: IsScalar(codes[i]) && IsEscapeOf(escapes[i], codes[i])
    ensures ParseString("\"" + (Concat(escapes) + ("\"" + rest))) == Parsed(Utf8All(codes), rest)
  {
    UnescapeEscapes(escapes, codes, rest);
    assert ("\"" + (Concat(escapes) + ("\"" + rest)))[1..] == Concat(escapes) + ("\"" + rest);
  }

  lemma UnescapeEscape(s: string, v: nat, tail: string)
    requires IsScalar(v) && IsEscapeOf(s, v) && Unescape(tail).Parsed?
    ensures Unescape(s + tail) == Parsed(Utf8(v) + Unescape(tail).value, Unescape(tail).rest)
  {
    hide Transcode, Utf8, IsHex4;
    var text := s + tail;
    TranscodeEscape(s, v, tail);
    assert text[2..] == s[2..] + tail && text[0] == s[..2][0] && text[1] == s[..2][1];
  }

  lemma {:induction false} UnescapeEscapes(escapes: seq<string>, codes: seq<nat>, rest: string)
    requires |escapes| == |codes|
    requires forall i | 0 <= i < |codes| :: IsScalar(codes[i]) && IsEscapeOf(escapes[i], codes[i])
    ensures Unescape(Concat(escapes) + ("\"" + rest)) == Parsed(Utf8All(codes), rest)
  {
    hide Utf8, IsEscapeOf, IsScalar;
    var close := "\"" + rest;
    if escapes == [] {
      assert Concat(escapes) + close == close && close[1..] == rest;
    } else {
      UnescapeEscapes(escapes[1..], codes[1..], rest);
      UnescapeEscape(escapes[0], codes[0], Concat(escapes[1..]) + close);
      Associate(escapes[0], Concat(escapes[1..]), close);
    }
  }

  // ----- the space set aside for a literal -----

  /** The count of the first pass over a literal: one for each character, escaped or not. */
  function CountLiteral(s: string): nat {
    if s == "" || s[0] == '\"' then 0
    else if s[0] == '\\' && |s| >= 2 then 1 + CountLiteral(s[2..])
    else 1 + CountLiteral(s[1..])
  }

  lemma {:induction false} CountPlain(s: string, k: nat)
    requires k <= |s| && forall i | 0 <= i < k :: s[i] != '\"' && s[i] != '\\'
    ensures CountLiteral(s) == k + CountLiteral(s[k..])
  {
    if k == 0 {
      assert s[0..] == s;
    } else {
      CountPlain(s[1..], k - 1);
      assert s[1..][k - 1..] == s[k..];
    }
  }

  lemma EncodeLength(uc: nat)
    ensures |Encode(uc)| == Utf8Length(uc)
  {
    var n := Utf8Length(uc);
    EncodeBytesLength(uc, n, FIRST_BYTE_MARK[n]);
  }

  lemma {:induction false} EncodeBytesLength(uc: nat, len: nat, mark: nat)
    requires len >= 1
    ensures |EncodeBytes(uc, len, mark)| == len
  {
    if len > 1 { EncodeBytesLength(uc / 64, len - 1, mark); }
  }

  /** What an escape yields is paid for by the characters that the first pass counts in it. */
  lemma TranscodeFits(s: string)
    requires Transcode(s).Parsed?
    ensures |Transcode(s).value| + CountLiteral(Transcode(s).rest) <= CountLiteral(s)
  {
    var uc, s1 := ParseHex4(s), s[4..];
    CountPlain(s, 4);
    EncodeLength(uc);
    if 0xD800 <= uc <= 0xDBFF && |s1| >= 2 && s1[0] == '\\' && s1[1] == 'u' {
      CountPlain(s1[2..], 4);
      assert s1[2..][4..] == s1[6..];
      EncodeLength(SurrogatePair(uc, ParseHex4(s1[2..])));
    }
  }

  /** The bytes of a literal with complete escapes fit the space counted by the first pass. */
  lemma {:induction false} LiteralFits(s: string)
    requires Unescape(s).Parsed?
    ensures |Unescape(s).value| <= CountLiteral(s)
    decreases |s|
  {
    if s == "" || s[0] == '\"' {
    } else if s[0] != '\\' {
      LiteralFits(s[1..]);
    } else if s[1] == 'u' {
      TranscodeFits(s[2..]);
      LiteralFits(Transcode(s[2..]).rest);
    } else {
      LiteralFits(s[2..]);
    }
  }
}
