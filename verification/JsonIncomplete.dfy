/** When reading runs past the end of the text: only if a literal in it has incomplete escapes. */
module JsonIncomplete {

  import opened CString
  import opened Json
  import opened JsonAccept
  import opened JsonLayout
  import opened JsonParse
  import opened JsonReadScalars
  import opened JsonTokens

  /** The end of a text. */
  predicate Ends(s: string, u: string) {
    |u| <= |s| && s[|s| - |u|..] == u
  }

  lemma EndsPlus(x: string, s: string, u: string)
    requires Ends(s, u)
    ensures Ends(x + s, u)
  {
    assert (x + s)[|x| + |s| - |u|..] == s[|s| - |u|..];
  }

  lemma EndsTwice(s: string, u: string, v: string)
    requires Ends(s, u) && Ends(u, v)
    ensures Ends(s, v)
  {
    assert s == s[..|s| - |u|] + u;
    EndsPlus(s[..|s| - |u|], u, v);
  }

  lemma {:induction false} PiecesEnd(ps: seq<Piece>, rest: string)
    ensures Ends(PiecesText(ps, rest), rest)
  {
    if ps == [] {
      assert rest[0..] == rest;
    } else {
      var tail := PiecesText(ps[1..], rest);
      PiecesEnd(ps[1..], rest);
      match ps[0]
      case Char(c) => EndsPlus([c], tail, rest);
      case Escaped(c) => EndsPlus(['\\', c], tail, rest);
      case Code(hex) =>
        EndsPlus(hex, tail, rest);
        EndsPlus("\\u", hex + tail, rest);
      case Surrogates(high, low) =>
        EndsPlus(low, tail, rest);
        EndsPlus("\\u", low + tail, rest);
        EndsPlus(high, "\\u" + (low + tail), rest);
        EndsPlus("\\u", high + ("\\u" + (low + tail)), rest);
    }
  }

  lemma {:induction false} SkipEnds(s: string)
    ensures Ends(s, Skip(s))
  {
    var gap := SkippedGap(s);
    assert Skip(s)[0..] == Skip(s);
    EndsPlus(gap, Skip(s), Skip(s));
  }

  lemma StringEnds(s: string)
    requires ParseString(s).Parsed?
    ensures Ends(s, ParseString(s).rest)
  {
    var rest := ParseString(s).rest;
    var ps, closed := AcceptedPieces(s[1..]);
    var end := Close(closed, rest);
    assert rest[0..] == rest;
    if closed { EndsPlus("\"", rest, rest); }
    PiecesEnd(ps, end);
    EndsTwice(s[1..], end, rest);
    assert s == [s[0]] + s[1..];
    EndsPlus([s[0]], s[1..], rest);
  }

  lemma NumeralEndsText(n: Numeral, rest: string)
    ensures Ends(NumeralText(n, rest), rest)
  {
    assert rest[0..] == rest;
    var e := n.exponent;
    var s2 := ExponentText(e, rest);
    if e.Exponent? {
      EndsPlus(e.digits, rest, rest);
      EndsPlus(e.sign, e.digits + rest, rest);
      EndsPlus([e.mark], e.sign + (e.digits + rest), rest);
    }
    var s1 := FractionText(n.fraction, s2);
    if n.fraction != "" {
      EndsPlus(n.fraction, s2, rest);
      EndsPlus(".", n.fraction + s2, rest);
    }
    EndsPlus(n.digits, s1, rest);
    var zero := if n.zero then "0" else "";
    EndsPlus(zero, n.digits + s1, rest);
    EndsPlus(if n.minus then "-" else "", zero + (n.digits + s1), rest);
  }

  /** What the parser leaves is the end of what it was given. */
  lemma {:induction false} ValueEnds(s: string)
    requires ParseValue(s).Parsed?
    ensures Ends(s, ParseValue(s).rest)
    decreases |s|, 1
  {
    hide NumeralText, ParseNumber, ParseString;
    var rest := ParseValue(s).rest;
    assert rest[0..] == rest;
    if "null" <= s || "false" <= s || "true" <= s {
      assert s == s[..|s| - |rest|] + rest;
    } else if Head(s) == '\"' {
      StringEnds(s);
    } else if Head(s) == '[' {
      BracketEnds(s, '[');
    } else if Head(s) == '{' {
      BracketEnds(s, '{');
    } else {
      var n := AcceptedNumeral(s);
      NumeralEndsText(n, rest);
    }
  }

  lemma {:induction false} BracketEnds(s: string, open: char)
    requires ParseValue(s).Parsed? && Head(s) == open && (open == '[' || open == '{')
    ensures Ends(s, ParseValue(s).rest)
    decreases |s|, 0
  {
    hide ParseItems, ParseMembers;
    OpenedBracket(s, open);
    var rest := ParseValue(s).rest;
    var body := s[1..];
    var s1 := Skip(body);
    ParseSkipsFirst(body);
    if open == '[' { ParseOpensArray(body); } else { ParseOpensObject(body); }
    if Head(s1) == if open == '[' then ']' else '}' {
      assert rest[0..] == rest && s1 == [s1[0]] + rest;
      SkipEnds(body);
      EndsPlus([s1[0]], rest, rest);
      EndsTwice(body, s1, rest);
    } else if open == '[' {
      ItemsEnd(body);
    } else {
      MembersEnd(body);
    }
    EndsPlus([open], body, rest);
  }

  lemma {:induction false} ItemsEnd(s: string)
    requires ParseItems(s).Parsed?
    ensures Ends(s, ParseItems(s).rest)
    decreases |s|, 2
  {
    hide ParseValue;
    SkipShorter(s);
    SkipEnds(s);
    ValueEnds(Skip(s));
    var r := ParseValue(Skip(s));
    EndsTwice(s, Skip(s), r.rest);
    Behind(s, r.rest);
    SkipShorter(r.rest);
    var s1 := Skip(r.rest);
    if Head(s1) == ',' {
      ItemsEnd(s1[1..]);
      EndsTwice(s, s1[1..], ParseItems(s).rest);
    }
  }

  /** Behind a gap and one more character. */
  lemma Behind(s: string, u: string)
    requires Ends(s, u) && Skip(u) != ""
    ensures Ends(s, Skip(u)[1..])
  {
    var s1 := Skip(u);
    SkipEnds(u);
    EndsTwice(s, u, s1);
    assert s1 == [s1[0]] + s1[1..] && s1[1..][0..] == s1[1..];
    EndsPlus([s1[0]], s1[1..], s1[1..]);
    EndsTwice(s, s1, s1[1..]);
  }

  lemma {:induction false} MemberEnds(s: string)
    requires ParseMember(s).Parsed?
    ensures Ends(s, ParseMember(s).rest)
    decreases |s|, 3
  {
    hide ParseValue, ParseString;
    SkipEnds(s);
    SkipShorter(s);
    StringEnds(Skip(s));
    var r := ParseString(Skip(s));
    EndsTwice(s, Skip(s), r.rest);
    Behind(s, r.rest);
    SkipShorter(r.rest);
    var s2 := Skip(r.rest)[1..];
    SkipEnds(s2);
    SkipShorter(s2);
    ValueEnds(Skip(s2));
    EndsTwice(s, s2, Skip(s2));
    EndsTwice(s, Skip(s2), ParseMember(s).rest);
  }

  lemma {:induction false} MembersEnd(s: string)
    requires ParseMembers(s).Parsed?
    ensures Ends(s, ParseMembers(s).rest)
    decreases |s|, 4
  {
    hide ParseMember;
    MemberEnds(s);
    var r := ParseMember(s);
    Behind(s, r.rest);
    SkipShorter(r.rest);
    var s1 := Skip(r.rest);
    if Head(s1) == ',' {
      MembersEnd(s1[1..]);
      EndsTwice(s, s1[1..], ParseMembers(s).rest);
    }
  }

  /** A quote somewhere in the text, with escapes behind it that are not complete. */
  ghost predicate BrokenLiteral(s: string) {
    exists u :: BrokenAt(s, u)
  }

  predicate BrokenAt(s: string, u: string) {
    Ends(s, u) && u != "" && u[0] == '\"' && !CompleteEscapes(u[1..])
  }

  lemma BrokenLater(s: string, u: string)
    requires Ends(s, u) && BrokenLiteral(u)
    ensures BrokenLiteral(s)
  {
    var v :| BrokenAt(u, v);
    EndsTwice(s, u, v);
    assert BrokenAt(s, v);
  }

  lemma BrokenHere(s: string)
    requires ParseString(s).Incomplete?
    ensures BrokenLiteral(s)
  {
    IncompleteExactly(s[1..]);
    assert s[0..] == s;
    assert BrokenAt(s, s);
  }

  /** Reading runs past the end of the text only if a literal in it has incomplete escapes. */
  lemma {:induction false} IncompleteValue(s: string)
    requires ParseValue(s).Incomplete?
    ensures BrokenLiteral(s)
    decreases |s|, 0
  {
    hide ParseItems, ParseMembers, ParseString, ParseNumber, BrokenLiteral;
    if Head(s) == '\"' {
      BrokenHere(s);
    } else {
      var body := s[1..];
      assert s == [s[0]] + body && body[0..] == body;
      ParseSkipsFirst(body);
      if s[0] == '[' {
        IncompleteItems(body);
      } else {
        IncompleteMembers(body);
      }
      EndsPlus([s[0]], body, body);
      BrokenLater(s, body);
    }
  }

  lemma {:induction false} IncompleteItems(s: string)
    requires ParseItems(s).Incomplete?
    ensures BrokenLiteral(s)
    decreases |s|, 2
  {
    hide ParseValue, BrokenLiteral;
    SkipShorter(s);
    SkipEnds(s);
    var r := ParseValue(Skip(s));
    if r.Incomplete? {
      IncompleteValue(Skip(s));
      BrokenLater(s, Skip(s));
    } else {
      ValueEnds(Skip(s));
      EndsTwice(s, Skip(s), r.rest);
      Behind(s, r.rest);
      SkipShorter(r.rest);
      IncompleteItems(Skip(r.rest)[1..]);
      BrokenLater(s, Skip(r.rest)[1..]);
    }
  }

  lemma {:induction false} IncompleteMember(s: string)
    requires ParseMember(s).Incomplete?
    ensures BrokenLiteral(s)
    decreases |s|, 3
  {
    hide ParseValue, ParseString, BrokenLiteral;
    SkipShorter(s);
    SkipEnds(s);
    var r := ParseString(Skip(s));
    if r.Incomplete? {
      BrokenHere(Skip(s));
      BrokenLater(s, Skip(s));
    } else {
      StringEnds(Skip(s));
      EndsTwice(s, Skip(s), r.rest);
      Behind(s, r.rest);
      SkipShorter(r.rest);
      var s2 := Skip(r.rest)[1..];
      SkipShorter(s2);
      SkipEnds(s2);
      EndsTwice(s, s2, Skip(s2));
      IncompleteValue(Skip(s2));
      BrokenLater(s, Skip(s2));
    }
  }

  lemma {:induction false} IncompleteMembers(s: string)
    requires ParseMembers(s).Incomplete?
    ensures BrokenLiteral(s)
    decreases |s|, 4
  {
    hide ParseMember, BrokenLiteral;
    var r := ParseMember(s);
    if r.Incomplete? {
      IncompleteMember(s);
    } else {
      MemberEnds(s);
      Behind(s, r.rest);
      SkipShorter(r.rest);
      IncompleteMembers(Skip(r.rest)[1..]);
      BrokenLater(s, Skip(r.rest)[1..]);
    }
  }
}
