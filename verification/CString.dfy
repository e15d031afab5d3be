/** Texts as the C code sees them: a sequence of characters without NUL, followed by a terminating NUL. */
module CString {

  const NUL: char := '\0'

  /** What `text[i]` reads: position |text| holds the terminator, nothing beyond it may be read. */
  function At(text: string, i: nat): char
    requires i <= |text|
  {
    if i < |text| then text[i] else NUL
  }

  /** What `*text` reads. */
  function Head(text: string): char {
    At(text, 0)
  }

  predicate NulFree(text: string) {
    forall i | 0 <= i < |text| :: text[i] != NUL
  }

  /** From index `at` on, the buffer holds the characters of `text`. */
  ghost predicate Wrote(a: array<char>, at: nat, text: string)
    reads a
  {
    at + |text| <= a.Length && forall i | at <= i < at + |text| :: a[i] == text[i - at]
  }

  /** From index `at` on, the buffer holds the C string `text`. */
  ghost predicate HoldsAt(a: array<char>, at: nat, text: string)
    reads a
  {
    at + |text| < a.Length && Wrote(a, at, text) && a[at + |text|] == NUL && NulFree(text)
  }

  ghost predicate Holds(a: array<char>, text: string)
    reads a
  {
    HoldsAt(a, 0, text)
  }

  lemma Associate(a: string, b: string, c: string)
    ensures a + (b + c) == a + b + c
  {}

  method StrLen(a: array<char>, at: nat, ghost text: string) returns (n: nat)
    requires HoldsAt(a, at, text)
    ensures n == |text|
  {
    n := 0;
    while a[at + n] != NUL
      invariant n <= |text|
      decreases |text| - n
    {
      n := n + 1;
    }
  }

  /** `strcpy(out + at, text)` */
  method StrCpy(out: array<char>, at: nat, text: string)
    requires NulFree(text) && at + |text| < out.Length
    modifies out
    ensures HoldsAt(out, at, text)
    ensures forall i | 0 <= i < at :: out[i] == old(out[i])
  {
    var i := 0;
    while i < |text|
      invariant i <= |text| && Wrote(out, at, text[..i])
      invariant forall j | 0 <= j < at :: out[j] == old(out[j])
    {
      out[at + i] := text[i];
      i := i + 1;
    }
    out[at + |text|] := NUL;
  }

  lemma HoldsNothing(a: array<char>)
    requires a.Length > 0 && a[0] == NUL
    ensures Holds(a, "")
  {}

  method ReadText(a: array<char>, ghost x: string) returns (s: string)
    requires Holds(a, x)
    ensures s == x
  {
    var n := StrLen(a, 0, x);
    s := a[..n];
  }
}
