/** `cJSON_Minify`: white space and comments removed in place. */
module JsonMinify {

  import opened CString
  import opened Json
  import opened JsonLayout

  /** Copies a literal from behind its opening quote through its closing quote. Where the text ends
      first, the C loop runs past the terminator: `Incomplete`. */
  function CopyLiteral(s: string): (r: Parsed<string>)
    ensures r.Parsed? ==> |r.rest| < |s| && |r.value| + |r.rest| == |s|
  {
    if s == "" then Incomplete
    else if s[0] == '\"' then Parsed("\"", s[1..])
    else if s[0] == '\\' then
      if |s| == 1 then Incomplete
      else
        var (tail, rest) :- CopyLiteral(s[2..]);
        Parsed([s[0], s[1]] + tail, rest)
    else
      var (tail, rest) :- CopyLiteral(s[1..]);
      Parsed([s[0]] + tail, rest)
  }

  /** Drops everything up to the end of the line. */
  function SkipLine(s: string): (r: string)
    ensures |r| <= |s|
    ensures s != "" && s[0] != '\n' ==> |r| < |s|
  {
    if s == "" || s[0] == '\n' then s else SkipLine(s[1..])
  }

  /** Drops everything through the first end-of-comment mark; without one the C code steps over the
      terminator. */
  function SkipComment(s: string): (r: Parsed<()>)
    ensures r.Parsed? ==> |r.rest| < |s|
  {
    if s == "" then Incomplete
    else if |s| >= 2 && s[0] == '*' && s[1] == '/' then Parsed((), s[2..])
    else SkipComment(s[1..])
  }

  /** The text that is left of `s`, with an empty rest. */
  function Minified(s: string): (r: Parsed<string>)
    ensures r.Parsed? ==> |r.value| <= |s| && r.rest == ""
    decreases |s|
  {
    if s == "" then Parsed("", "")
    else if IsSpace(s[0]) then Minified(s[1..])
    else if s[0] == '/' && Head(s[1..]) == '/' then Minified(SkipLine(s))
    else if s[0] == '/' && Head(s[1..]) == '*' then
      var (_, rest) :- SkipComment(s);
      Minified(rest)
    else if s[0] == '\"' then
      var (literal, rest) :- CopyLiteral(s[1..]);
      var (tail, e) :- Minified(rest);
      Parsed("\"" + literal + tail, e)
    else
      var (tail, e) :- Minified(s[1..]);
      Parsed([s[0]] + tail, e)
  }

  // ----- the loop over the buffer -----

  /** `*into++ = *json++` */
  method Copy(json: array<char>, next: nat, into: nat, ghost at: nat, ghost copied: string, ghost left: string)
    requires left != "" && HoldsAt(json, next, left)
    requires at + |copied| == into <= next && Wrote(json, at, copied)
    modifies json
    ensures forall k | 0 <= k < at :: json[k] == old(json[k])
    ensures HoldsAt(json, next + 1, left[1..])
    ensures Wrote(json, at, copied + [left[0]])
  {
    json[into] := json[next];
  }

  /** Copies one literal within the buffer, from `from` down to `to`. */
  method CopyLiteralInPlace(json: array<char>, from: nat, to: nat, ghost s: string)
    returns (next: nat, into: nat)
    requires to <= from && HoldsAt(json, from, s) && CopyLiteral(s).Parsed?
    modifies json
    ensures into <= next && next + |CopyLiteral(s).rest| == from + |s|
    ensures HoldsAt(json, next, CopyLiteral(s).rest)
    ensures into == to + |CopyLiteral(s).value| && Wrote(json, to, CopyLiteral(s).value)
    ensures forall k | 0 <= k < to :: json[k] == old(json[k])
  {
    hide CopyLiteral;
    ghost var r := CopyLiteral(s);
    ghost var copied := "";
    ghost var left := s;
    next, into := from, to;
    assert copied + CopyLiteral(left).value == r.value;
    while json[next] != NUL && json[next] != '\"'
      invariant next + |left| == from + |s| && HoldsAt(json, next, left)
      invariant into == to + |copied| && into <= next && Wrote(json, to, copied)
      invariant CopyLiteral(left).Parsed?
      invariant copied + CopyLiteral(left).value == r.value && CopyLiteral(left).rest == r.rest
      invariant forall k | 0 <= k < to :: json[k] == old(json[k])
      decreases |left|
    {
      CopyLiteralStep(copied, left);
      if json[next] == '\\' {
        Copy(json, next, into, to, copied, left);
        copied, left := copied + [left[0]], left[1..];
        next, into := next + 1, into + 1;
      }
      Copy(json, next, into, to, copied, left);
      copied, left := copied + [left[0]], left[1..];
      next, into := next + 1, into + 1;
    }
    CopyLiteralEnd(left);
    Copy(json, next, into, to, copied, left);
    next, into := next + 1, into + 1;
  }

  lemma CopyLiteralEnd(left: string)
    requires CopyLiteral(left).Parsed? && (left == "" || left[0] == '\"')
    ensures left != "" && CopyLiteral(left) == Parsed([left[0]], left[1..])
  {}

  lemma CopyLiteralStep(copied: string, left: string)
    requires left != "" && left[0] != '\"' && CopyLiteral(left).Parsed?
    ensures
      if left[0] == '\\' then
        && |left| > 1 && CopyLiteral(left[1..][1..]).Parsed?
        && CopyLiteral(left[1..][1..]).rest == CopyLiteral(left).rest
        && copied + [left[0]] + [left[1..][0]] + CopyLiteral(left[1..][1..]).value == copied + CopyLiteral(left).value
      else
        && CopyLiteral(left[1..]).Parsed? && CopyLiteral(left[1..]).rest == CopyLiteral(left).rest
        && copied + [left[0]] + CopyLiteral(left[1..]).value == copied + CopyLiteral(left).value
  {
    if left[0] == '\\' {
      assert left[1..][1..] == left[2..];
      Associate(copied, [left[0], left[1]], CopyLiteral(left[2..]).value);
      assert copied + [left[0]] + [left[1]] == copied + [left[0], left[1]];
    } else {
      Associate(copied, [left[0]], CopyLiteral(left[1..]).value);
    }
  }

  /** `while (*json && *json!='\n') json++` */
  method SkipLineInPlace(json: array<char>, from: nat, ghost s: string) returns (next: nat)
    requires HoldsAt(json, from, s)
    ensures next + |SkipLine(s)| == from + |s| && HoldsAt(json, next, SkipLine(s))
  {
    ghost var left := s;
    next := from;
    while json[next] != NUL && json[next] != '\n'
      invariant next + |left| == from + |s| && HoldsAt(json, next, left) && SkipLine(left) == SkipLine(s)
      decreases |left|
    {
      next, left := next + 1, left[1..];
    }
  }

  /** Steps through a comment and past its end mark. */
  method SkipCommentInPlace(json: array<char>, from: nat, ghost s: string) returns (next: nat)
    requires HoldsAt(json, from, s) && SkipComment(s).Parsed?
    ensures next + |SkipComment(s).rest| == from + |s| && HoldsAt(json, next, SkipComment(s).rest)
  {
    ghost var left := s;
    next := from;
    while json[next] != NUL && !(json[next] == '*' && json[next + 1] == '/')
      invariant next + |left| == from + |s| && HoldsAt(json, next, left) && SkipComment(left) == SkipComment(s)
      decreases |left|
    {
      next, left := next + 1, left[1..];
    }
    next := next + 2;
  }

  /** Copies a literal with its opening quote behind what was written so far. */
  method CopyQuoted(json: array<char>, from: nat, to: nat, ghost copied: string, ghost s: string)
    returns (next: nat, into: nat)
    requires s != "" && s[0] == '\"' && CopyLiteral(s[1..]).Parsed?
    requires |copied| == to <= from && HoldsAt(json, from, s) && Wrote(json, 0, copied)
    modifies json
    ensures var r := CopyLiteral(s[1..]);
      && into == to + 1 + |r.value| && into <= next && next + |r.rest| == from + |s|
      && HoldsAt(json, next, r.rest) && Wrote(json, 0, copied + ("\"" + r.value))
  {
    hide CopyLiteral;
    Copy(json, from, to, 0, copied, s);
    next, into := CopyLiteralInPlace(json, from + 1, to + 1, s[1..]);
  }

  /** The whole buffer; writing never overtakes reading. */
  method Minify(json: array<char>, ghost s: string)
    requires Holds(json, s) && Minified(s).Parsed?
    modifies json
    ensures Holds(json, Minified(s).value)
  {
    hide Minified, CopyLiteral, SkipComment, SkipLine;
    ghost var copied := "";
    ghost var left := s;
    var next, into := 0, 0;
    MinifiedNulFree(s);
    assert "" + Minified(s).value == Minified(s).value;
    while json[next] != NUL
      invariant next + |left| == |s| && HoldsAt(json, next, left)
      invariant into == |copied| && into <= next && Wrote(json, 0, copied)
      invariant Minified(left).Parsed? && copied + Minified(left).value == Minified(s).value
      decreases |left|
    {
      MinifiedStep(left);
      if json[next] == ' ' || json[next] == '\t' || json[next] == '\r' || json[next] == '\n' {
        next, left := next + 1, left[1..];
      } else if json[next] == '/' && json[next + 1] == '/' {
        next := SkipLineInPlace(json, next, left);
        left := SkipLine(left);
      } else if json[next] == '/' && json[next + 1] == '*' {
        next := SkipCommentInPlace(json, next, left);
        left := SkipComment(left).rest;
      } else if json[next] == '\"' {
        ghost var r := CopyLiteral(left[1..]);
        Associate(copied, "\"" + r.value, Minified(r.rest).value);
        next, into := CopyQuoted(json, next, into, copied, left);
        copied, left := copied + ("\"" + r.value), r.rest;
      } else {
        Associate(copied, [left[0]], Minified(left[1..]).value);
        Copy(json, next, into, 0, copied, left);
        copied, left := copied + [left[0]], left[1..];
        next, into := next + 1, into + 1;
      }
    }
    assert copied == Minified(s).value by { MinifiedEmpty(); assert copied + "" == copied; }
    json[into] := NUL;
  }

  lemma MinifiedEmpty()
    ensures Minified("") == Parsed("", "")
  {}

  /** One turn of the loop. */
  lemma MinifiedStep(left: string)
    requires left != "" && Minified(left).Parsed?
    ensures
      var c, d := left[0], Head(left[1..]);
      if IsSpace(c) then Minified(left) == Minified(left[1..])
      else if c == '/' && d == '/' then
        |SkipLine(left)| < |left| && Minified(left) == Minified(SkipLine(left))
      else if c == '/' && d == '*' then
        SkipComment(left).Parsed? && Minified(left) == Minified(SkipComment(left).rest)
      else if c == '\"' then
        var r := CopyLiteral(left[1..]);
        && r.Parsed? && Minified(r.rest).Parsed?
        && Minified(left).value == "\"" + r.value + Minified(r.rest).value
      else
        Minified(left[1..]).Parsed? && Minified(left).value == [c] + Minified(left[1..]).value
  {}

  lemma {:induction false} CopyLiteralNulFree(s: string)
    requires NulFree(s) && CopyLiteral(s).Parsed?
    ensures NulFree(CopyLiteral(s).value) && NulFree(CopyLiteral(s).rest)
  {
    if s[0] == '\\' {
      CopyLiteralNulFree(s[2..]);
    } else if s[0] != '\"' {
      CopyLiteralNulFree(s[1..]);
    }
  }

  lemma {:induction false} SkipNulFree(s: string)
    requires NulFree(s)
    ensures NulFree(SkipLine(s)) && (SkipComment(s).Parsed? ==> NulFree(SkipComment(s).rest))
  {
    if s != "" { SkipNulFree(s[1..]); }
  }

  lemma {:induction false} MinifiedNulFree(s: string)
    requires NulFree(s) && Minified(s).Parsed?
    ensures NulFree(Minified(s).value)
    decreases |s|
  {
    if s != "" {
      SkipNulFree(s);
      if s[0] == '/' && Head(s[1..]) == '/' {
        MinifiedNulFree(SkipLine(s));
      } else if s[0] == '/' && Head(s[1..]) == '*' {
        MinifiedNulFree(SkipComment(s).rest);
      } else if s[0] == '\"' {
        CopyLiteralNulFree(s[1..]);
        MinifiedNulFree(CopyLiteral(s[1..]).rest);
      } else {
        MinifiedNulFree(s[1..]);
      }
    }
  }
}
