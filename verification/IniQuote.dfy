/** The quoting of values in ini files: escaping, and reading a quoted value in place. */
module IniQuote {

  import opened CString
  import opened IniDictionary

  function EscapeOne(c: char): (r: string)
    ensures 1 <= |r| <= 2
  {
    if c == '\\' || c == '\"' then ['\\', c] else [c]
  }

  /** What `escape_value` writes. */
  function EscapeValue(v: string): (r: string)
    ensures |v| <= |r| <= 2 * |v|
  {
    if v == "" then "" else EscapeOne(v[0]) + EscapeValue(v[1..])
  }

  /** The value in front of the closing quote; a backslash takes the next character literally. */
  function Unquote(s: string, quote: char): (r: string)
    ensures |r| <= |s|
  {
    if s == "" then ""
    else if s[0] == '\\' then (if |s| == 1 then "" else [s[1]] + Unquote(s[2..], quote))
    else if s[0] == quote then ""
    else [s[0]] + Unquote(s[1..], quote)
  }

  lemma UnquoteOne(c: char, tail: string)
    ensures Unquote(EscapeOne(c) + tail, '\"') == [c] + Unquote(tail, '\"')
  {
    var s := EscapeOne(c) + tail;
    if c == '\\' || c == '\"' {
      assert s[2..] == tail;
    } else {
      assert s[1..] == tail;
    }
  }

  /** Whatever follows the closing quote, an escaped value is read back. */
  lemma {:induction false} UnquoteEscaped(v: string, trailing: string)
    ensures Unquote(EscapeValue(v) + "\"" + trailing, '\"') == v
  {
    hide Unquote, EscapeOne;
    if v == "" {
      assert EscapeValue(v) + "\"" + trailing == "\"" + trailing;
      UnquoteNothing(trailing);
    } else {
      var tail := EscapeValue(v[1..]) + "\"" + trailing;
      UnquoteEscaped(v[1..], trailing);
      UnquoteOne(v[0], tail);
      assert EscapeValue(v) + "\"" + trailing == EscapeOne(v[0]) + tail;
      assert v == [v[0]] + v[1..];
    }
  }

  lemma UnquoteNothing(trailing: string)
    ensures Unquote("\"" + trailing, '\"') == ""
  {}

  lemma {:induction false} EscapeNulFree(v: string)
    requires NulFree(v)
    ensures NulFree(EscapeValue(v))
  {
    if v != "" {
      EscapeNulFree(v[1..]);
    }
  }

  lemma {:induction false} UnquoteNulFree(s: string, quote: char)
    requires NulFree(s)
    ensures NulFree(Unquote(s, quote))
  {
    if s != "" && s[0] == '\\' {
      if |s| > 1 {
        UnquoteNulFree(s[2..], quote);
      }
    } else if s != "" {
      UnquoteNulFree(s[1..], quote);
    }
  }

  lemma {:induction false} EscapeSnoc(v: string, c: char)
    ensures EscapeValue(v + [c]) == EscapeValue(v) + EscapeOne(c)
  {
    hide EscapeOne;
    if v == "" {
      assert v + [c] == [c] && [c][1..] == "";
      assert EscapeValue([c]) == EscapeOne(c) + EscapeValue("");
    } else {
      EscapeSnoc(v[1..], c);
      assert (v + [c])[1..] == v[1..] + [c];
      Associate(EscapeOne(v[0]), EscapeValue(v[1..]), EscapeOne(c));
    }
  }

  lemma EscapeNothing()
    ensures EscapeValue("") == ""
  {}

  lemma EscapeNext(v: string, i: nat)
    requires i < |v|
    ensures EscapeValue(v[..i + 1]) == EscapeValue(v[..i]) + EscapeOne(v[i])
    ensures |EscapeValue(v[..i + 1])| <= |EscapeValue(v)|
  {
    EscapeSnoc(v[..i], v[i]);
    assert v[..i] + [v[i]] == v[..i + 1];
    EscapePrefix(v, i + 1);
  }

  /** `escape_value`: the buffer keeps its old contents when there is no value. */
  method EscapeInto(escaped: array<char>, value: Option<string>)
    requires value.Some? ==> NulFree(value.value) && |EscapeValue(value.value)| < escaped.Length
    modifies escaped
    ensures value.Some? ==> Holds(escaped, EscapeValue(value.value))
    ensures value.None? ==> escaped[..] == old(escaped[..])
  {
    if value.None? {
      return;
    }
    hide EscapeValue;
    var v := value.value;
    assert v[..0] == "";
    EscapeNothing();
    var i, e := 0, 0;
    while At(v, i) != NUL
      invariant i <= |v| && e == |EscapeValue(v[..i])| && Wrote(escaped, 0, EscapeValue(v[..i]))
      decreases |v| - i
    {
      var c := v[i];
      EscapeNext(v, i);
      if c == '\\' || c == '\"' {
        escaped[e] := '\\';
        e := e + 1;
      }
      escaped[e] := c;
      i := i + 1;
      e := e + 1;
    }
    assert v[..i] == v;
    EscapeNulFree(v);
    escaped[e] := NUL;
  }

  lemma {:induction false} EscapePrefix(v: string, i: nat)
    requires i <= |v|
    ensures |EscapeValue(v[..i])| <= |EscapeValue(v)|
    decreases |v| - i
  {
    if i < |v| {
      EscapeSnoc(v[..i], v[i]);
      assert v[..i] + [v[i]] == v[..i + 1];
      EscapePrefix(v, i + 1);
    } else {
      assert v[..i] == v;
    }
  }

  /** What is still to be read, in the state of the loop. */
  function Pending(s: string, esc: bool, quote: char): string {
    if !esc then Unquote(s, quote) else if s == "" then "" else [s[0]] + Unquote(s[1..], quote)
  }

  lemma PendingStep(s: string, esc: bool, quote: char)
    requires s != ""
    ensures
      Pending(s, esc, quote) ==
        if !esc && s[0] == '\\' then Pending(s[1..], true, quote)
        else if !esc && s[0] == quote then ""
        else [s[0]] + Pending(s[1..], false, quote)
  {
    if !esc && s[0] == '\\' && |s| > 1 {
      assert s[1..][0] == s[1] && s[1..][1..] == s[2..];
    }
  }

  lemma PendingNothing(esc: bool, quote: char)
    ensures Pending("", esc, quote) == ""
  {}

  /** `parse_quoted_value`: reads a copy and writes the value in place, never ahead of where it reads. */
  method ParseQuotedValue(value: array<char>, quote: char, ghost x: string)
    requires Holds(value, x)
    modifies value
    ensures Holds(value, Unquote(x, quote))
  {
    var n := StrLen(value, 0, x);
    var quoted := new char[n + 1];
    forall i | 0 <= i <= n {
      quoted[i] := value[i];
    }
    assert Holds(quoted, x);
    var q, v, esc := 0, 0, false;
    ghost var done := "";
    UnquoteNulFree(x, quote);
    assert x[0..] == x && Pending(x, false, quote) == Unquote(x, quote);
    hide Unquote, Pending;
    while quoted[q] != NUL
      invariant v <= q <= |x| && v == |done| && Holds(quoted, x)
      invariant Wrote(value, 0, done)
      invariant Unquote(x, quote) == done + Pending(x[q..], esc, quote)
      decreases |x| - q
    {
      var c := quoted[q];
      PendingStep(x[q..], esc, quote);
      assert x[q..][0] == c && x[q..][1..] == x[q + 1..];
      if !esc {
        if c == '\\' {
          esc := true;
          q := q + 1;
          continue;
        }
        if c == quote {
          break;
        }
      }
      esc := false;
      value[v] := c;
      Associate(done, [c], Pending(x[q + 1..], esc, quote));
      done := done + [c];
      v := v + 1;
      q := q + 1;
    }
    PendingNothing(esc, quote);
    assert done == Unquote(x, quote);
    value[v] := NUL;
  }
}
