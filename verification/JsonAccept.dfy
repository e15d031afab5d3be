/** The parser of cJSON.c accepts exactly the texts that spell a tree, and gives that tree. */
module JsonAccept {

  import opened CString
  import opened Json
  import opened JsonLayout
  import opened JsonParse
  import opened JsonTokens

  /** A layout of the text in front of `rest`. */
  predicate Fits(l: Layout, s: string, t: Json, rest: string) {
    WellFormed(l) && Spaced(l, Skipped) && Follows(l, rest) && Text(l, rest) == s && TreeOf(l) == t
  }

  /** The text starts with a text of the tree, and `rest` is what follows it. */
  ghost predicate Spells(s: string, t: Json, rest: string) {
    exists l :: Fits(l, s, t, rest)
  }

  /** What is skipped is a gap. */
  lemma {:induction false} SkippedGap(s: string) returns (gap: string)
    ensures Gap(gap, Skipped) && s == gap + Skip(s)
  {
    if s != "" && NUL < s[0] <= ' ' {
      var tail := SkippedGap(s[1..]);
      gap := [s[0]] + tail;
    } else {
      gap := "";
      assert "" + s == s;
    }
  }

  lemma OpenedBracket(s: string, open: char)
    requires Head(s) == open && open != NUL
    ensures s == [open] + s[1..]
  {}

  /** Whatever is accepted has a layout. */
  lemma {:induction false} AcceptedValue(s: string) returns (l: Layout)
    requires ParseValue(s).Parsed?
    ensures Fits(l, s, ParseValue(s).value, ParseValue(s).rest)
    decreases |s|, 1
  {
    if Head(s) == '[' {
      l := AcceptedArray(s);
    } else if Head(s) == '{' {
      l := AcceptedObject(s);
    } else {
      l := AcceptedToken(s);
    }
  }

  lemma AcceptedToken(s: string) returns (l: Layout)
    requires ParseValue(s).Parsed? && Head(s) != '[' && Head(s) != '{'
    ensures Fits(l, s, ParseValue(s).value, ParseValue(s).rest)
  {
    hide ParseNumber, NumeralText, NumeralValue, PiecesText, PiecesValue, Unescape;
    if "null" <= s {
      l := Word(Null);
      assert s == "null" + s[4..];
    } else if "false" <= s {
      l := Word(False);
      assert s == "false" + s[5..];
    } else if "true" <= s {
      l := Word(True);
      assert s == "true" + s[4..];
    } else if Head(s) == '\"' {
      var ps, closed := AcceptedPieces(s[1..]);
      l := Quoted(ps, closed);
      assert s == "\"" + s[1..];
    } else {
      var n := AcceptedNumeral(s);
      l := Figure(n);
    }
  }

  lemma AcceptedArray(s: string) returns (l: Layout)
    requires ParseValue(s).Parsed? && Head(s) == '['
    ensures Fits(l, s, ParseValue(s).value, ParseValue(s).rest)
    decreases |s|, 0
  {
    hide ParseItems;
    OpenedBracket(s, '[');
    ParseOpensArray(s[1..]);
    var s1 := Skip(s[1..]);
    if Head(s1) == ']' {
      var gap := SkippedGap(s[1..]);
      l := Items(gap, []);
      OpenedBracket(s1, ']');
    } else {
      var items := AcceptedItems(s[1..]);
      l := Items("", items);
    }
  }

  lemma {:induction false} AcceptedItems(s: string) returns (items: seq<Item>)
    requires ParseItems(s).Parsed?
    ensures items != []
    ensures forall i | 0 <= i < |items| :: Closed(items[i].value) && WellFormed(items[i].value)
    ensures forall i | 0 <= i < |items| :: SpacedItem(items[i], Skipped) && Spaced(items[i].value, Skipped)
    ensures ItemsText(items, ParseItems(s).rest) == s && TreesOf(items) == ParseItems(s).value
    decreases |s|, 2
  {
    hide ParseValue, Text, TreeOf;
    var before := SkippedGap(s);
    SkipShorter(s);
    var l := AcceptedValue(Skip(s));
    var r := ParseValue(Skip(s));
    var after := SkippedGap(r.rest);
    var s1 := Skip(r.rest);
    SkipShorter(r.rest);
    StillClosed(l, r.rest, s1);
    var x := Item(before, l, after);
    if Head(s1) == ',' {
      var more := AcceptedItems(s1[1..]);
      items := [x] + more;
      assert items[1..] == more;
      OpenedBracket(s1, ',');
    } else {
      items := [x];
      OpenedBracket(s1, ']');
    }
  }

  lemma {:induction false} SkipShorter(s: string)
    ensures |Skip(s)| <= |s|
  {}

  /** A literal that ends with the text has nothing behind it. */
  lemma StillClosed(l: Layout, rest: string, next: string)
    requires Follows(l, rest) && next == Skip(rest) && next != ""
    ensures Closed(l)
  {}

  lemma AcceptedObject(s: string) returns (l: Layout)
    requires ParseValue(s).Parsed? && Head(s) == '{'
    ensures Fits(l, s, ParseValue(s).value, ParseValue(s).rest)
    decreases |s|, 0
  {
    hide ParseMembers;
    OpenedBracket(s, '{');
    ParseOpensObject(s[1..]);
    var s1 := Skip(s[1..]);
    if Head(s1) == '}' {
      var gap := SkippedGap(s[1..]);
      l := Members(gap, []);
      OpenedBracket(s1, '}');
    } else {
      var members := AcceptedMembers(s[1..]);
      l := Members("", members);
    }
  }

  /** A member up to the text behind its value. */
  lemma {:induction false} AcceptedMember(s: string) returns (m: Pair)
    requires ParseMember(s).Parsed?
    ensures PiecesOk(m.name) && WellFormed(m.value) && SpacedPair(m, Skipped) && Spaced(m.value, Skipped) && m.after == ""
    ensures Follows(m.value, ParseMember(s).rest) && PairText(m, ParseMember(s).rest) == s
    ensures Member(PiecesValue(m.name), TreeOf(m.value)) == ParseMember(s).value
    decreases |s|, 3
  {
    hide ParseValue, Text, TreeOf, PiecesText, PiecesValue, Unescape;
    var before := SkippedGap(s);
    var s0 := Skip(s);
    var ps, closed := AcceptedPieces(s0[1..]);
    OpenedBracket(s0, '\"');
    var r := ParseString(s0);
    var afterName := SkippedGap(r.rest);
    var s1 := Skip(r.rest);
    OpenedBracket(s1, ':');
    var beforeValue := SkippedGap(s1[1..]);
    SkipShorter(s1[1..]);
    var l := AcceptedValue(Skip(s1[1..]));
    m := Pair(before, ps, afterName, beforeValue, l, "");
  }

  lemma {:induction false} AcceptedMembers(s: string) returns (members: seq<Pair>)
    requires ParseMembers(s).Parsed?
    ensures members != []
    ensures forall i | 0 <= i < |members| ::
      PiecesOk(members[i].name) && Closed(members[i].value) && WellFormed(members[i].value)
    ensures forall i | 0 <= i < |members| :: SpacedPair(members[i], Skipped) && Spaced(members[i].value, Skipped)
    ensures MembersText(members, ParseMembers(s).rest) == s && MembersOf(members) == ParseMembers(s).value
    decreases |s|, 4
  {
    hide ParseMember, Text, TreeOf, PiecesValue, PiecesText;
    var m0 := AcceptedMember(s);
    var r := ParseMember(s);
    var after := SkippedGap(r.rest);
    var s1 := Skip(r.rest);
    SkipShorter(r.rest);
    StillClosed(m0.value, r.rest, s1);
    var m := m0.(after := after);
    if Head(s1) == ',' {
      var more := AcceptedMembers(s1[1..]);
      members := [m] + more;
      assert members[1..] == more;
      OpenedBracket(s1, ',');
    } else {
      members := [m];
      OpenedBracket(s1, '}');
    }
  }

  /** Acceptance, and what is accepted, without mention of the parser. */
  lemma ParsesExactly(s: string, t: Json, rest: string)
    ensures ParseValue(s) == Parsed(t, rest) <==> Spells(s, t, rest)
  {
    if ParseValue(s) == Parsed(t, rest) {
      var l := AcceptedValue(s);
      assert Fits(l, s, t, rest);
    }
    if Spells(s, t, rest) {
      var l :| Fits(l, s, t, rest);
      ParseText(l, rest);
    }
  }

  /** A text is refused exactly if it spells no tree. */
  lemma RefusesExactly(s: string)
    ensures ParseValue(s).Parsed? <==> exists t, rest :: Spells(s, t, rest)
  {
    if ParseValue(s).Parsed? {
      ParsesExactly(s, ParseValue(s).value, ParseValue(s).rest);
    }
    forall t, rest | Spells(s, t, rest) ensures ParseValue(s).Parsed? {
      ParsesExactly(s, t, rest);
    }
  }

  /** The text, behind its white space, is accepted: with nothing but white space behind the tree if that is asked for. */
  ghost predicate Accepts(text: string, terminated: bool, t: Json, rest: string) {
    Spells(Skip(text), t, rest) && (terminated ==> Skip(rest) == "")
  }

  lemma AcceptsExactly(text: string, terminated: bool)
    ensures var r := ParseValue(Skip(text));
      (exists t, rest :: Accepts(text, terminated, t, rest)) <==> r.Parsed? && (terminated ==> Skip(r.rest) == "")
    ensures var r := ParseValue(Skip(text));
      r.Parsed? && (terminated ==> Skip(r.rest) == "") ==> Accepts(text, terminated, r.value, r.rest)
  {
    hide ParseValue, Spells;
    var r := ParseValue(Skip(text));
    if r.Parsed? && (terminated ==> Skip(r.rest) == "") {
      ParsesExactly(Skip(text), r.value, r.rest);
      assert Accepts(text, terminated, r.value, r.rest);
    }
    forall t, rest | Accepts(text, terminated, t, rest)
      ensures r.Parsed? && (terminated ==> Skip(r.rest) == "")
    {
      ParsesExactly(Skip(text), t, rest);
    }
  }
}
