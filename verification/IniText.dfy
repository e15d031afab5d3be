/** The string helpers of iniparser.c: blanks and case, as functions and in place. */
module IniText {

  import opened CString

  /** The size of a line buffer. */
  const ASCIILINESZ := 1024

  /** `isspace` in the C locale. */
  predicate IsSpace(c: char) {
    c in " \t\n\U{000B}\U{000C}\r"
  }

  /** `tolower` in the C locale. */
  function ToLower(c: char): char {
    if 'A' <= c <= 'Z' then (c as int + 32) as char else c
  }

  function Lower(s: string): string {
    seq(|s|, i requires 0 <= i < |s| => ToLower(s[i]))
  }

  function SkipSpaces(s: string): string {
    if s != "" && IsSpace(s[0]) then SkipSpaces(s[1..]) else s
  }

  function TrimEnd(s: string): (r: string)
    ensures r <= s && (r != "" ==> !IsSpace(r[|r| - 1]))
    ensures forall i | |r| <= i < |s| :: IsSpace(s[i])
  {
    if s != "" && IsSpace(s[|s| - 1]) then TrimEnd(s[..|s| - 1]) else s
  }

  function Strip(s: string): string {
    TrimEnd(SkipSpaces(s))
  }

  predicate Blanks(s: string) {
    forall i | 0 <= i < |s| :: IsSpace(s[i])
  }

  /** No blanks at either end. */
  predicate Trimmed(s: string) {
    s != "" ==> !IsSpace(s[0]) && !IsSpace(s[|s| - 1])
  }

  // ----- what the functions mean -----

  lemma SpaceCodes(c: char)
    ensures IsSpace(c) <==> c == ' ' || 9 <= c as int <= 13
  {}

  lemma LowerLetters(c: char)
    ensures Lower("ABCDEFGHIJKLMNOPQRSTUVWXYZ") == "abcdefghijklmnopqrstuvwxyz"
    ensures c < 'A' || 'Z' < c ==> Lower([c]) == [c]
  {}

  /** The blanks in front that are skipped. */
  lemma {:induction false} SkipSpacesAt(s: string)
    ensures var k := |s| - |SkipSpaces(s)|;
      && 0 <= k <= |s| && SkipSpaces(s) == s[k..] && (forall i | 0 <= i < k :: IsSpace(s[i]))
      && (k < |s| ==> !IsSpace(s[k]))
  {
    if s != "" && IsSpace(s[0]) {
      SkipSpacesAt(s[1..]);
      var k := |s| - |SkipSpaces(s)|;
      assert s[1..][k - 1..] == s[k..];
      assert forall i | 1 <= i < k :: s[i] == s[1..][i - 1];
    } else {
      assert s[0..] == s;
    }
  }

  /** A trimmed text with blanks around it is what stripping leaves. */
  lemma StripUnique(a: string, b: string, c: string)
    requires Blanks(a) && Trimmed(b) && Blanks(c)
    ensures Strip(a + b + c) == b
  {
    var s := a + b + c;
    SkipSpacesAt(s);
    var k := |s| - |SkipSpaces(s)|;
    if b == "" {
      assert forall i | 0 <= i < |s| :: IsSpace(s[i]);
      assert SkipSpaces(s) == "";
    } else {
      assert s[|a|] == b[0];
      assert forall i | 0 <= i < |a| :: s[i] == a[i];
      assert k == |a|;
      assert s[k..] == b + c;
      var r := TrimEnd(b + c);
      assert (b + c)[|b| - 1] == b[|b| - 1];
      assert forall i | |b| <= i < |b + c| :: (b + c)[i] == c[i - |b|];
      assert |r| == |b|;
    }
  }

  /** Stripping leaves a trimmed text and takes away blanks only. */
  lemma StripSplits(s: string) returns (a: string, c: string)
    ensures s == a + Strip(s) + c && Trimmed(Strip(s))
    ensures Blanks(a) && Blanks(c)
  {
    SkipSpacesAt(s);
    var k := |s| - |SkipSpaces(s)|;
    var t := SkipSpaces(s);
    a, c := s[..k], t[|Strip(s)|..];
    assert t == Strip(s) + c;
    if Strip(s) != "" {
      assert Strip(s)[0] == t[0] == s[k];
    }
  }

  lemma StripTrimmed(s: string)
    ensures Strip(s) == s <==> Trimmed(s)
  {
    var a, c := StripSplits(s);
    if Trimmed(s) {
      StripUnique("", s, "");
      assert "" + s + "" == s;
    }
  }

  lemma StripNulFree(s: string)
    requires NulFree(s)
    ensures NulFree(Strip(s)) && |Strip(s)| <= |s|
  {
    var a, c := StripSplits(s);
    assert forall i | 0 <= i < |Strip(s)| :: Strip(s)[i] == s[|a| + i];
  }

  lemma LowerNulFree(s: string)
    requires NulFree(s)
    ensures NulFree(Lower(s))
  {}

  // ----- in place -----

  lemma StripBetween(x: string, from: nat, last: nat)
    requires from <= last <= |x| && Trimmed(x[from..last])
    requires (forall i | 0 <= i < from :: IsSpace(x[i])) && (forall i | last <= i < |x| :: IsSpace(x[i]))
    ensures Strip(x) == x[from..last]
    ensures NulFree(x) ==> NulFree(Strip(x)) && |Strip(x)| <= |x|
  {
    hide Strip;
    assert x == x[..from] + x[from..last] + x[last..];
    StripUnique(x[..from], x[from..last], x[last..]);
    if NulFree(x) { StripNulFree(x); }
  }

  /** `strstrip` */
  method StripInPlace(s: array<char>, ghost x: string) returns (n: nat)
    requires Holds(s, x)
    modifies s
    ensures n == |Strip(x)| && Holds(s, Strip(x))
  {
    var last := StrLen(s, 0, x);
    var from := 0;
    hide Strip;
    while s[from] != NUL && IsSpace(s[from])
      invariant from <= |x| && forall i | 0 <= i < from :: IsSpace(x[i])
      decreases |x| - from
    {
      from := from + 1;
    }
    while last > from
      invariant from <= last <= |x| && forall i | last <= i < |x| :: IsSpace(x[i])
    {
      if !IsSpace(s[last - 1]) {
        break;
      }
      last := last - 1;
    }
    StripBetween(x, from, last);
    s[last] := NUL;
    n := last - from;
    MoveDown(s, from, x[from..last]);
  }

  /** `memmove(s, s + from, |text| + 1)` */
  method MoveDown(s: array<char>, from: nat, ghost text: string)
    requires HoldsAt(s, from, text)
    modifies s
    ensures Holds(s, text)
  {
    var i := 0;
    while s[from + i] != NUL
      invariant i <= |text| && Wrote(s, 0, text[..i])
      invariant forall j | i <= j < |text| :: s[from + j] == text[j]
      invariant s[from + |text|] == NUL
      decreases |text| - i
    {
      s[i] := s[from + i];
      i := i + 1;
    }
    s[i] := NUL;
  }

  /** `strlwc`: at most `len - 1` characters, possibly in place. */
  method LowerInto(input: array<char>, out: array<char>, len: nat, ghost x: string)
    requires Holds(input, x) && 0 < len <= out.Length
    modifies out
    ensures Holds(out, Lower(if |x| < len then x else x[..len - 1]))
  {
    var i := 0;
    while input[i] != NUL && i < len - 1
      invariant i <= |x| && i < len && Wrote(out, 0, Lower(x[..i]))
      invariant forall j | i <= j <= |x| :: input[j] == At(x, j)
      invariant input != out ==> Holds(input, x)
      decreases |x| - i
    {
      out[i] := ToLower(input[i]);
      i := i + 1;
    }
    out[i] := NUL;
    LowerNulFree(x[..i]);
    assert |x| < len ==> x[..i] == x;
  }
}
