/** The texts that cJSON.c accepts, with what may stand between their tokens, and that parsing gives the tree
    that such a text spells. */
module JsonLayout {

  import opened CString
  import opened Json
  import opened JsonParse
  import opened JsonTokens

  /** A tree as it is written: its tokens and the gaps around them. */
  datatype Layout =
    | Word(value: Json)
    | Figure(numeral: Numeral)
    | Quoted(pieces: seq<Piece>, closed: bool)
    | Items(gap: string, items: seq<Item>)
    | Members(gap: string, members: seq<Pair>)

  datatype Item = Item(before: string, value: Layout, after: string)

  datatype Pair = Pair(
    before: string, name: seq<Piece>, afterName: string, beforeValue: string, value: Layout, after: string)

  // ----- gaps -----

  /** White space of RFC 8259, section 2. */
  predicate IsSpace(c: char) {
    c == ' ' || c == '\t' || c == '\n' || c == '\r'
  }

  predicate Blank(s: string) {
    forall i | 0 <= i < |s| :: IsSpace(s[i])
  }

  /** From two slashes through the end of the line. */
  predicate LineComment(c: string) {
    && |c| >= 3 && c[0] == '/' && c[1] == '/' && c[|c| - 1] == '\n'
    && forall i | 2 <= i < |c| - 1 :: c[i] != '\n'
  }

  /** From slash and star through the first star and slash, which may share the star. */
  predicate BlockComment(c: string) {
    && |c| >= 3 && c[0] == '/' && c[1] == '*' && c[|c| - 2] == '*' && c[|c| - 1] == '/'
    && forall i | 1 <= i < |c| - 2 :: !(c[i] == '*' && c[i + 1] == '/')
  }

  /** White space and comments in any order. */
  predicate Removable(s: string) {
    || s == ""
    || (IsSpace(s[0]) && Removable(s[1..]))
    || exists n | 3 <= n <= |s| :: (LineComment(s[..n]) || BlockComment(s[..n])) && Removable(s[n..])
  }

  /** What the parser skips, and what the minifier removes. */
  datatype Gaps = Skipped | Removed

  predicate Gap(s: string, g: Gaps) {
    match g
    case Skipped => forall i | 0 <= i < |s| :: NUL < s[i] <= ' '
    case Removed => Removable(s)
  }

  lemma {:induction false} BlankGap(s: string, g: Gaps)
    requires Blank(s)
    ensures Gap(s, g)
  {
    if g.Removed? && s != "" {
      BlankGap(s[1..], g);
    }
  }

  // ----- layouts -----

  /** A literal may end with the text instead of a quote, but then nothing can follow. */
  predicate Closed(l: Layout) {
    l.Quoted? ==> l.closed
  }

  /** The tokens are in order. */
  predicate WellFormed(l: Layout) {
    match l
    case Word(v) => v.Null? || v.False? || v.True?
    case Figure(n) => NumeralOk(n)
    case Quoted(ps, _) => PiecesOk(ps)
    case Items(_, items) => forall i | 0 <= i < |items| :: Closed(items[i].value) && WellFormed(items[i].value)
    case Members(_, members) =>
      forall i | 0 <= i < |members| :: PiecesOk(members[i].name) && Closed(members[i].value) && WellFormed(members[i].value)
  }

  predicate SpacedItem(x: Item, g: Gaps) {
    Gap(x.before, g) && Gap(x.after, g)
  }

  predicate SpacedPair(m: Pair, g: Gaps) {
    Gap(m.before, g) && Gap(m.afterName, g) && Gap(m.beforeValue, g) && Gap(m.after, g)
  }

  /** The gaps are of a kind. */
  predicate Spaced(l: Layout, g: Gaps) {
    match l
    case Items(gap, items) => Gap(gap, g) && forall i | 0 <= i < |items| :: SpacedItem(items[i], g) && Spaced(items[i].value, g)
    case Members(gap, members) =>
      Gap(gap, g) && forall i | 0 <= i < |members| :: SpacedPair(members[i], g) && Spaced(members[i].value, g)
    case _ => true
  }

  /** The tree that a layout spells. */
  function TreeOf(l: Layout): Json
    requires WellFormed(l)
    decreases l, 0
  {
    match l
    case Word(v) => v
    case Figure(n) => Number(NumeralValue(n))
    case Quoted(ps, _) => Str(PiecesValue(ps))
    case Items(_, items) => Arr(TreesOf(items))
    case Members(_, members) => Obj(MembersOf(members))
  }

  function TreesOf(items: seq<Item>): (ts: seq<Json>)
    requires forall i | 0 <= i < |items| :: Closed(items[i].value) && WellFormed(items[i].value)
    ensures |ts| == |items|
    decreases items, 0
  {
    if items == [] then [] else [TreeOf(items[0].value)] + TreesOf(items[1..])
  }

  function MembersOf(members: seq<Pair>): (ms: seq<Member>)
    requires forall i | 0 <= i < |members| ::
      PiecesOk(members[i].name) && Closed(members[i].value) && WellFormed(members[i].value)
    ensures |ms| == |members|
    decreases members, 0
  {
    if members == [] then []
    else [Member(PiecesValue(members[0].name), TreeOf(members[0].value))] + MembersOf(members[1..])
  }

  function WordText(v: Json): string {
    if v.Null? then "null" else if v.False? then "false" else "true"
  }

  function LiteralText(ps: seq<Piece>, closed: bool, rest: string): string {
    "\"" + PiecesText(ps, Close(closed, rest))
  }

  /** The characters of a layout, followed by `rest`. */
  function Text(l: Layout, rest: string): string
    decreases l, 0
  {
    match l
    case Word(v) => WordText(v) + rest
    case Figure(n) => NumeralText(n, rest)
    case Quoted(ps, closed) => LiteralText(ps, closed, rest)
    case Items(gap, items) => "[" + (if items == [] then gap + ("]" + rest) else ItemsText(items, rest))
    case Members(gap, members) => "{" + (if members == [] then gap + ("}" + rest) else MembersText(members, rest))
  }

  function ItemsText(items: seq<Item>, rest: string): string
    requires items != []
    decreases items, 1
  {
    items[0].before + Text(items[0].value, items[0].after + ItemsTail(items, rest))
  }

  /** From the end of an item on: a closing bracket, or a comma and the other items. */
  function ItemsTail(items: seq<Item>, rest: string): string
    requires items != []
    decreases items, 0
  {
    if |items| == 1 then "]" + rest else "," + ItemsText(items[1..], rest)
  }

  function PairText(m: Pair, rest: string): string
    decreases m, 0
  {
    m.before + LiteralText(m.name, true, m.afterName + (":" + (m.beforeValue + Text(m.value, rest))))
  }

  function MembersText(members: seq<Pair>, rest: string): string
    requires members != []
    decreases members, 1
  {
    PairText(members[0], members[0].after + MembersTail(members, rest))
  }

  function MembersTail(members: seq<Pair>, rest: string): string
    requires members != []
    decreases members, 0
  {
    if |members| == 1 then "}" + rest else "," + MembersText(members[1..], rest)
  }

  /** The text behind a value leaves the value as it is. */
  predicate Follows(l: Layout, rest: string) {
    match l
    case Figure(n) => NumeralEnds(n, rest)
    case Quoted(_, closed) => closed || rest == ""
    case _ => true
  }

  // ----- parsing a layout -----

  /** No number goes on here. */
  predicate Quiet(s: string) {
    !IsDigit(Head(s)) && Head(s) != '.' && Head(s) != 'e' && Head(s) != 'E' && Head(s) != '+' && Head(s) != '-'
  }

  lemma QuietEnds(n: Numeral, rest: string)
    requires NumeralOk(n) && Quiet(rest)
    ensures NumeralEnds(n, rest)
  {}

  lemma QuietFollows(l: Layout, gap: string, tail: string)
    requires WellFormed(l) && Closed(l) && Gap(gap, Skipped) && Quiet(tail)
    ensures Follows(l, gap + tail)
  {
    assert gap == "" ==> gap + tail == tail;
    assert gap != "" ==> Head(gap + tail) == gap[0];
    if l.Figure? {
      QuietEnds(l.numeral, gap + tail);
    }
  }

  lemma {:induction false} SkipGap(gap: string, s: string)
    requires Gap(gap, Skipped) && (s == "" || s[0] == NUL || s[0] > ' ')
    ensures Skip(gap + s) == s
  {
    if gap == "" {
      assert gap + s == s;
    } else {
      assert (gap + s)[1..] == gap[1..] + s;
      SkipGap(gap[1..], s);
    }
  }

  lemma {:induction false} SkipTwice(s: string)
    ensures Skip(Skip(s)) == Skip(s)
  {
    if s != "" { SkipTwice(s[1..]); }
  }

  /** A layout starts with a visible character that closes no bracket. */
  lemma TextHead(l: Layout, rest: string)
    requires WellFormed(l) && Follows(l, rest)
    ensures var c := Head(Text(l, rest)); c > ' ' && c != ']' && c != '}'
  {
    if l.Figure? {
      NumeralReads(l.numeral, rest);
    }
  }

  lemma LiteralReads(ps: seq<Piece>, closed: bool, rest: string)
    requires PiecesOk(ps) && (closed || rest == "")
    ensures ParseString(LiteralText(ps, closed, rest)) == Parsed(PiecesValue(ps), rest)
  {
    UnescapePieces(ps, closed, rest);
    var s := LiteralText(ps, closed, rest);
    assert s[0] == '\"' && s[1..] == PiecesText(ps, Close(closed, rest));
  }

  lemma WordReads(v: Json, rest: string)
    requires v.Null? || v.False? || v.True?
    ensures ParseValue(WordText(v) + rest) == Parsed(v, rest)
  {
    var s := WordText(v) + rest;
    match v
    case Null => assert s[4..] == rest;
    case False => assert s[0] == 'f' && s[5..] == rest;
    case True => assert s[0] == 't' && s[4..] == rest;
  }

  lemma TokenReads(l: Layout, rest: string)
    requires WellFormed(l) && Follows(l, rest) && !l.Items? && !l.Members?
    ensures ParseValue(Text(l, rest)) == Parsed(TreeOf(l), rest)
  {
    hide PiecesText, PiecesValue, NumeralText, NumeralValue, ParseNumber, Unescape;
    match l
    case Word(v) => WordReads(v, rest);
    case Figure(n) =>
      NumeralReads(n, rest);
    case Quoted(ps, closed) =>
      LiteralReads(ps, closed, rest);
  }

  lemma ParseSkipsFirst(s: string)
    ensures ParseItems(Skip(s)) == ParseItems(s)
    ensures ParseMembers(Skip(s)) == ParseMembers(s)
  {
    hide ParseValue;
    SkipTwice(s);
    assert ParseMember(Skip(s)) == ParseMember(s);
  }

  lemma ParseOpensArray(body: string)
    ensures ParseValue("[" + body) ==
      (var s1 := Skip(body);
       if Head(s1) == ']' then Parsed(Arr([]), s1[1..])
       else var r := ParseItems(body);
            if r.IsFailure() then r.PropagateFailure() else Parsed(Arr(r.value), r.rest))
  {
    hide ParseItems;
    var s := "[" + body;
    assert s[0] == '[' && s[1..] == body;
    ParseSkipsFirst(body);
  }

  lemma ParseOpensObject(body: string)
    ensures ParseValue("{" + body) ==
      (var s1 := Skip(body);
       if Head(s1) == '}' then Parsed(Obj([]), s1[1..])
       else var r := ParseMembers(body);
            if r.IsFailure() then r.PropagateFailure() else Parsed(Obj(r.value), r.rest))
  {
    hide ParseMembers;
    var s := "{" + body;
    assert s[0] == '{' && s[1..] == body;
    ParseSkipsFirst(body);
  }

  /** Parsing the text of any layout gives the tree it spells and stops exactly behind it. */
  lemma {:induction false} ParseText(l: Layout, rest: string)
    requires WellFormed(l) && Spaced(l, Skipped) && Follows(l, rest)
    ensures ParseValue(Text(l, rest)) == Parsed(TreeOf(l), rest)
    decreases l, 0
  {
    hide ParseValue;
    match l
    case Items(gap, items) =>
      if items == [] {
        ParseOpensArray(gap + ("]" + rest));
        SkipGap(gap, "]" + rest);
      } else {
        ParseOpensArray(ItemsText(items, rest));
        ParseItemsText(items, rest);
      }
    case Members(gap, members) =>
      if members == [] {
        ParseOpensObject(gap + ("}" + rest));
        SkipGap(gap, "}" + rest);
      } else {
        ParseOpensObject(MembersText(members, rest));
        ParseMembersText(members, rest);
      }
    case _ => TokenReads(l, rest);
  }

  /** The items after an opening bracket. */
  lemma {:induction false} ParseItemsText(items: seq<Item>, rest: string)
    requires items != []
    requires forall i | 0 <= i < |items| :: Closed(items[i].value) && WellFormed(items[i].value)
    requires forall i | 0 <= i < |items| :: SpacedItem(items[i], Skipped) && Spaced(items[i].value, Skipped)
    ensures ParseItems(ItemsText(items, rest)) == Parsed(TreesOf(items), rest)
    ensures Head(Skip(ItemsText(items, rest))) != ']'
    decreases items, 0
  {
    hide ParseValue, Text, TreeOf, Follows;
    var x, tail := items[0], ItemsTail(items, rest);
    QuietFollows(x.value, x.after, tail);
    TextHead(x.value, x.after + tail);
    SkipGap(x.before, Text(x.value, x.after + tail));
    SkipGap(x.after, tail);
    ParseText(x.value, x.after + tail);
    if |items| == 1 {
      assert TreesOf(items) == [TreeOf(x.value)];
    } else {
      ParseItemsText(items[1..], rest);
    }
  }

  lemma {:induction false} ParsePairText(m: Pair, rest: string)
    requires PiecesOk(m.name) && WellFormed(m.value) && SpacedPair(m, Skipped) && Spaced(m.value, Skipped)
    requires Follows(m.value, rest)
    ensures ParseMember(PairText(m, rest)) == Parsed(Member(PiecesValue(m.name), TreeOf(m.value)), rest)
    ensures Head(Skip(PairText(m, rest))) == '\"'
    decreases m, 0
  {
    hide ParseValue, Text, TreeOf, Follows, PiecesText, PiecesValue;
    var s3 := Text(m.value, rest);
    var s2 := ":" + (m.beforeValue + s3);
    var s1 := LiteralText(m.name, true, m.afterName + s2);
    assert s1[0] == '\"';
    SkipGap(m.before, s1);
    LiteralReads(m.name, true, m.afterName + s2);
    SkipGap(m.afterName, s2);
    TextHead(m.value, rest);
    SkipGap(m.beforeValue, s3);
    assert s2[1..] == m.beforeValue + s3;
    ParseText(m.value, rest);
  }

  lemma {:induction false} ParseMembersText(members: seq<Pair>, rest: string)
    requires members != []
    requires forall i | 0 <= i < |members| ::
      PiecesOk(members[i].name) && Closed(members[i].value) && WellFormed(members[i].value)
    requires forall i | 0 <= i < |members| :: SpacedPair(members[i], Skipped) && Spaced(members[i].value, Skipped)
    ensures ParseMembers(MembersText(members, rest)) == Parsed(MembersOf(members), rest)
    ensures Head(Skip(MembersText(members, rest))) != '}'
    decreases members, 0
  {
    hide ParseMember, PairText, TreeOf, PiecesValue, Follows;
    var m, tail := members[0], MembersTail(members, rest);
    QuietFollows(m.value, m.after, tail);
    SkipGap(m.after, tail);
    ParsePairText(m, m.after + tail);
    if |members| == 1 {
      assert MembersOf(members) == [Member(PiecesValue(m.name), TreeOf(m.value))];
    } else {
      ParseMembersText(members[1..], rest);
    }
  }
}
