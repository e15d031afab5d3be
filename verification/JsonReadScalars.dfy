/** The loops of `skip`, `parse_number` and `parse_string`, proved against the functions of JsonParse. */
module JsonReadScalars {

  import opened Bits
  import opened CString
  import opened Json
  import opened JsonParse
  import opened JsonUnicode

  method SkipFrom(text: string, pos: nat) returns (end: nat)
    requires pos <= |text|
    ensures pos <= end <= |text| && text[end..] == Skip(text[pos..])
  {
    end := pos;
    while At(text, end) != NUL && At(text, end) <= ' '
      invariant pos <= end <= |text| && Skip(text[end..]) == Skip(text[pos..])
      decreases |text| - end
    {
      assert text[end..][1..] == text[end + 1..];
      end := end + 1;
    }
  }

  method ReadDigits(text: string, pos: nat, n0: nat) returns (n: nat, end: nat)
    requires pos <= |text|
    ensures pos <= end <= |text| && ScanDigits(text[pos..], n0) == (n, text[end..])
  {
    n, end := n0, pos;
    while '0' <= At(text, end) <= '9'
      invariant pos <= end <= |text| && ScanDigits(text[pos..], n0) == ScanDigits(text[end..], n)
      decreases |text| - end
    {
      assert text[end..][1..] == text[end + 1..];
      n := n * 10 + DigitValue(text[end]);
      end := end + 1;
    }
  }

  method ReadInteger(text: string, pos: nat) returns (n: nat, num: nat)
    requires pos <= |text|
    ensures pos <= num <= |text| && ScanInteger(text[pos..]) == (n, text[num..])
    ensures pos < |text| && IsDigit(text[pos]) ==> pos < num
  {
    n, num := 0, pos;
    if At(text, num) == '0' {
      num := num + 1;
      assert text[pos..][1..] == text[num..];
    }
    if '1' <= At(text, num) <= '9' {
      assert text[num..][1..] == text[num + 1..];
      n, num := ReadDigits(text, num + 1, DigitValue(text[num]));
    }
  }

  method ReadFraction(text: string, pos: nat, n0: nat) returns (n: nat, scale: int, num: nat)
    requires pos <= |text|
    ensures pos <= num <= |text| && ScanFraction(n0, text[pos..]) == (n, scale, text[num..])
  {
    n, scale, num := n0, 0, pos;
    if At(text, num) == '.' && IsDigit(At(text, num + 1)) {
      assert text[pos..][1..] == text[num + 1..];
      n, num := ReadDigits(text, pos + 1, n);
      scale := pos + 1 - num;
    }
  }

  method ReadExponent(text: string, pos: nat) returns (subscale: int, num: nat)
    requires pos <= |text|
    ensures pos <= num <= |text| && ScanExponent(text[pos..]) == (subscale, text[num..])
  {
    subscale, num := 0, pos;
    if At(text, num) == 'e' || At(text, num) == 'E' {
      num := num + 1;
      ghost var s := text[num..];
      assert text[pos..][1..] == s;
      var signsubscale := 1;
      if At(text, num) == '+' {
        num := num + 1;
        assert s[1..] == text[num..];
      } else if At(text, num) == '-' {
        signsubscale, num := -1, num + 1;
        assert s[1..] == text[num..];
      }
      var e: nat;
      e, num := ReadDigits(text, num, 0);
      subscale := signsubscale * e;
    }
  }

  method ReadNumber(text: string, pos: nat) returns (d: real, end: nat)
    requires pos < |text| && (text[pos] == '-' || IsDigit(text[pos]))
    ensures pos < end <= |text| && ParseNumber(text[pos..]) == (d, text[end..])
  {
    hide ScanInteger, ScanFraction, ScanExponent, NumberValue;
    var num, n, sign, scale, subscale := pos, 0, 1.0, 0, 0;
    if At(text, num) == '-' {
      sign, num := -1.0, num + 1;
      assert text[pos..][1..] == text[num..];
    }
    n, num := ReadInteger(text, num);
    n, scale, num := ReadFraction(text, num, n);
    subscale, num := ReadExponent(text, num);
    d, end := NumberValue(sign, n, scale + subscale), num;
    assert text[pos..][0] == text[pos];
  }

  // ----- literals -----

  /** The literal's escapes are complete: no backslash ends the text, and `\u` is followed by four
      characters of the literal. */
  predicate CompleteEscapes(s: string) {
    if s == "" || s[0] == '\"' then true
    else if s[0] == '\\' then
      |s| >= 2 && (s[1] == 'u' ==> FourCharacters(s[2..])) && CompleteEscapes(s[2..])
    else CompleteEscapes(s[1..])
  }

  lemma {:induction false} CompletePlain(s: string, k: nat)
    requires k <= |s| && forall i | 0 <= i < k :: s[i] != '\"' && s[i] != '\\'
    ensures CompleteEscapes(s) == CompleteEscapes(s[k..])
  {
    if k == 0 {
      assert s[0..] == s;
    } else {
      CompletePlain(s[1..], k - 1);
      assert s[1..][k - 1..] == s[k..];
    }
  }

  /** Reading a literal runs past its end exactly when its escapes are not complete. */
  lemma {:induction false} IncompleteExactly(s: string)
    ensures Unescape(s).Incomplete? <==> !CompleteEscapes(s)
    ensures !Unescape(s).Failed?
    decreases |s|
  {
    if s == "" || s[0] == '\"' {
    } else if s[0] != '\\' {
      IncompleteExactly(s[1..]);
    } else if |s| >= 2 && s[1] != 'u' {
      IncompleteExactly(s[2..]);
    } else if |s| >= 2 && FourCharacters(s[2..]) {
      CompletePlain(s[2..], 4);
      assert s[2..][4..] == s[6..];
      var s1 := s[6..];
      IncompleteExactly(s1);
      if |s1| >= 2 && s1[0] == '\\' && s1[1] == 'u' && FourCharacters(s1[2..]) {
        CompletePlain(s1[2..], 4);
        assert s1[2..][4..] == s1[6..];
        IncompleteExactly(s1[6..]);
      }
    }
  }

  /** First pass: how much space to set aside. */
  method MeasureLiteral(text: string, pos: nat) returns (len: nat)
    requires pos <= |text| && NulFree(text) && CompleteEscapes(text[pos..])
    ensures len == CountLiteral(text[pos..])
  {
    var ptr := pos;
    len := 0;
    while At(text, ptr) != '\"' && At(text, ptr) != NUL
      invariant pos <= ptr <= |text| && CompleteEscapes(text[ptr..])
      invariant len + CountLiteral(text[ptr..]) == CountLiteral(text[pos..])
      decreases |text| - ptr
    {
      ghost var s := text[ptr..];
      len := len + 1;
      if At(text, ptr) == '\\' {
        assert s[2..] == text[ptr + 2..];
        ptr := ptr + 1;
      }
      assert s[1..] == text[ptr + 1..] || s[2..] == text[ptr + 1..];
      ptr := ptr + 1;
    }
  }

  /** The bytes of a code, from the last one backwards. */
  method EncodeTo(out: array<char>, at: nat, uc0: nat, ghost done: string) returns (to: nat)
    requires at == |done| && at + |Encode(uc0)| <= out.Length && Wrote(out, 0, done)
    modifies out
    ensures to == at + |Encode(uc0)| && Wrote(out, 0, done + Encode(uc0))
  {
    EncodeLength(uc0);
    var uc: nat := uc0;
    var len: nat := if uc < 0x80 then 1 else if uc < 0x800 then 2 else if uc < 0x1_0000 then 3 else 4;
    var ptr2: nat, k: nat := at + len, len;
    ghost var mark: nat, tail := FIRST_BYTE_MARK[len], "";
    assert EncodeBytes(uc, len, mark) + "" == EncodeBytes(uc, len, mark);
    while k > 1
      invariant 1 <= k <= len && ptr2 == at + k && |tail| == len - k
      invariant Wrote(out, 0, done) && Wrote(out, ptr2, tail)
      invariant EncodeBytes(uc, k, mark) + tail == Encode(uc0)
    {
      ghost var c := Byte(And(Or(uc, 0x80), 0xBF));
      Associate(EncodeBytes(uc / 64, k - 1, mark), [c], tail);
      ptr2 := ptr2 - 1;
      out[ptr2] := Byte(And(Or(uc, 0x80), 0xBF));
      uc, k, tail := uc / 64, k - 1, [c] + tail;
    }
    out[at] := Byte(Or(uc, FIRST_BYTE_MARK[len]));
    assert Encode(uc0) == [out[at]] + tail;
    to := at + len;
  }

  /** A `\u` escape; `ptr` is at its first digit, and moves to the first character behind it. */
  method ReadUnicode(text: string, pos: nat, out: array<char>, at: nat, ghost done: string)
    returns (ptr: nat, to: nat)
    requires pos <= |text| && Transcode(text[pos..]).Parsed?
    requires at == |done| && at + |Transcode(text[pos..]).value| <= out.Length && Wrote(out, 0, done)
    modifies out
    ensures pos < ptr <= |text| && text[ptr..] == Transcode(text[pos..]).rest
    ensures to == at + |Transcode(text[pos..]).value| && Wrote(out, 0, done + Transcode(text[pos..]).value)
  {
    hide Encode, SurrogatePair, ParseHex4;
    ghost var s := text[pos..];
    assert s[4..] == text[pos + 4..] && forall v: string :: v + "" == v;
    var uc := ParseHex4(text[pos..]);
    ptr, to := pos + 4, at;
    if 0xDC00 <= uc <= 0xDFFF || uc == 0 {
      return;
    }
    if 0xD800 <= uc <= 0xDBFF {
      if At(text, ptr) != '\\' || At(text, ptr + 1) != 'u' {
        return;
      }
      assert s[4..][2..] == text[ptr + 2..] && s[4..][6..] == text[ptr + 6..];
      var uc2 := ParseHex4(text[ptr + 2..]);
      ptr := ptr + 6;
      if uc2 < 0xDC00 || uc2 > 0xDFFF {
        return;
      }
      uc := SurrogatePair(uc, uc2);
    }
    to := EncodeTo(out, at, uc, done);
  }

  /** One character or escape of a literal. */
  function UnescapeOne(s: string): Parsed<string>
    requires s != ""
  {
    if s[0] != '\\' then Parsed([s[0]], s[1..])
    else if |s| == 1 then Incomplete
    else if s[1] == 'u' then Transcode(s[2..])
    else Parsed([SimpleEscape(s[1])], s[2..])
  }

  lemma UnescapeStep(s: string)
    requires s != "" && s[0] != '\"' && Unescape(s).Parsed?
    ensures UnescapeOne(s).Parsed? && |UnescapeOne(s).rest| < |s|
    ensures Unescape(UnescapeOne(s).rest).Parsed? && Unescape(s).rest == Unescape(UnescapeOne(s).rest).rest
    ensures Unescape(s).value == UnescapeOne(s).value + Unescape(UnescapeOne(s).rest).value
  {
    hide Transcode;
  }

  method FillOne(text: string, pos: nat, out: array<char>, at: nat, ghost done: string) returns (ptr: nat, to: nat)
    requires pos < |text| && UnescapeOne(text[pos..]).Parsed?
    requires at == |done| && at + |UnescapeOne(text[pos..]).value| <= out.Length && Wrote(out, 0, done)
    modifies out
    ensures pos < ptr <= |text| && text[ptr..] == UnescapeOne(text[pos..]).rest
    ensures to == at + |UnescapeOne(text[pos..]).value| && Wrote(out, 0, done + UnescapeOne(text[pos..]).value)
  {
    hide Transcode;
    ghost var s := text[pos..];
    assert s[1..] == text[pos + 1..];
    if At(text, pos) != '\\' {
      out[at] := text[pos];
      ptr, to := pos + 1, at + 1;
    } else {
      assert s[2..] == text[pos + 2..];
      if At(text, pos + 1) == 'u' {
        ptr, to := ReadUnicode(text, pos + 2, out, at, done);
      } else {
        out[at] := SimpleEscape(text[pos + 1]);
        ptr, to := pos + 2, at + 1;
      }
    }
  }

  /** Both passes over a literal, into a buffer of the size that the first pass found. */
  method FillLiteral(text: string, pos: nat, out: array<char>) returns (end: nat)
    requires pos <= |text| && NulFree(text) && CompleteEscapes(text[pos..])
    requires out.Length == CountLiteral(text[pos..]) + 1
    modifies out
    ensures Unescape(text[pos..]).Parsed? && NulFree(Unescape(text[pos..]).value)
    ensures pos <= end <= |text| && text[end..] == Unescape(text[pos..]).rest
    ensures Holds(out, Unescape(text[pos..]).value)
  {
    hide UnescapeOne;
    ghost var r := Unescape(text[pos..]);
    IncompleteExactly(text[pos..]);
    LiteralFits(text[pos..]);
    UnescapeNulFree(text[pos..]);
    var ptr, ptr2 := pos, 0;
    ghost var done := "";
    assert "" + r.value == r.value;
    while At(text, ptr) != '\"' && At(text, ptr) != NUL
      invariant pos <= ptr <= |text| && Unescape(text[ptr..]).Parsed?
      invariant ptr2 == |done| && Wrote(out, 0, done)
      invariant done + Unescape(text[ptr..]).value == r.value && Unescape(text[ptr..]).rest == r.rest
      decreases |text| - ptr
    {
      ghost var s := text[ptr..];
      ghost var next := UnescapeOne(s);
      UnescapeStep(s);
      Associate(done, next.value, Unescape(next.rest).value);
      ptr, ptr2 := FillOne(text, ptr, out, ptr2, done);
      done := done + next.value;
    }
    assert done == r.value by { assert done + "" == done; }
    out[ptr2] := NUL;
    if At(text, ptr) == '\"' {
      assert text[ptr..][1..] == text[ptr + 1..];
      ptr := ptr + 1;
    }
    end := ptr;
  }

  lemma EncodeNulFree(uc: nat)
    requires 0 < uc <= 0x10_FFFF && !(0xD800 <= uc <= 0xDFFF)
    ensures NulFree(Encode(uc))
  {
    hide Encode, Byte;
    EncodeIsUtf8(uc);
    forall n: nat | 0 < n < 256 ensures Byte(n) != NUL { ByteNotNul(n); }
  }

  lemma ByteNotNul(n: nat)
    requires 0 < n < 256
    ensures Byte(n) != NUL
  {}

  lemma TranscodeNulFree(s: string)
    requires Transcode(s).Parsed? && NulFree(s)
    ensures NulFree(Transcode(s).value) && NulFree(Transcode(s).rest)
  {
    hide Encode, SurrogatePair;
    var uc, s1 := ParseHex4(s), s[4..];
    if 0xDC00 <= uc <= 0xDFFF || uc == 0 {
    } else if 0xD800 <= uc <= 0xDBFF {
      if |s1| >= 2 && s1[0] == '\\' && s1[1] == 'u' {
        var uc2 := ParseHex4(s1[2..]);
        if 0xDC00 <= uc2 <= 0xDFFF {
          var v := 0x1_0000 + (uc - 0xD800) * 0x400 + (uc2 - 0xDC00);
          assert (v - 0x1_0000) / 0x400 == uc - 0xD800 && (v - 0x1_0000) % 0x400 == uc2 - 0xDC00;
          SurrogatesCombine(v);
          EncodeNulFree(v);
        }
      }
    } else {
      EncodeNulFree(uc);
    }
  }

  lemma {:induction false} UnescapeNulFree(s: string)
    requires Unescape(s).Parsed? && NulFree(s)
    ensures NulFree(Unescape(s).value)
    decreases |s|
  {
    hide Transcode;
    if s == "" || s[0] == '\"' {
    } else if s[0] != '\\' {
      UnescapeNulFree(s[1..]);
    } else if s[1] == 'u' {
      TranscodeNulFree(s[2..]);
      UnescapeNulFree(Transcode(s[2..]).rest);
    } else {
      UnescapeNulFree(s[2..]);
    }
  }
}
