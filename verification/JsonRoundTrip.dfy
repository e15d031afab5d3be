/** The texts of both printer modes are layouts of the printed tree, so parsing them gives it back; which
    layouts they are is stated by their characters. */
module JsonRoundTrip {

  import opened CString
  import opened Json
  import opened JsonLayout
  import opened JsonParse
  import opened JsonPrint
  import opened JsonScalars
  import opened JsonTokens

  // ----- the layout of a printed tree -----

  function NumeralOf(d: real): Numeral
    requires IsInt32(d)
  {
    var n := d.Floor;
    Numeral(n < 0, n == 0, if n == 0 then "" else Digits(if n < 0 then -n else n), "", NoExponent)
  }

  function PieceOf(c: char): Piece
    requires c != NUL
  {
    match c
    case '\\' => Escaped('\\')
    case '\"' => Escaped('\"')
    case '\U{0008}' => Escaped('b')
    case '\U{000C}' => Escaped('f')
    case '\n' => Escaped('n')
    case '\r' => Escaped('r')
    case '\t' => Escaped('t')
    case _ => if c < ' ' then Code(Hex4(c as int)) else Char(c)
  }

  function PiecesOf(s: string): seq<Piece>
    requires NulFree(s)
  {
    if s == "" then [] else [PieceOf(s[0])] + PiecesOf(s[1..])
  }

  /** The layout that the printers choose for a tree. */
  function LayoutOf(t: Json, depth: nat, fmt: bool): Layout
    requires Printable(t)
    decreases t, 0
  {
    match t
    case Arr(items) => Items("", ItemsOf(items, depth + 1, fmt, true))
    case Obj(members) =>
      Members(NewLine(if depth == 0 then 0 else depth - 1, fmt), PairsOf(members, depth + 1, fmt))
    case Number(d) => Figure(NumeralOf(d))
    case Str(s) => Quoted(PiecesOf(s), true)
    case _ => Word(t)
  }

  function NewLine(tabs: nat, fmt: bool): string {
    if fmt then "\n" + Tabs(tabs) else ""
  }

  function ItemsOf(items: seq<Json>, depth: nat, fmt: bool, first: bool): (xs: seq<Item>)
    requires forall i | 0 <= i < |items| :: Printable(items[i])
    ensures |xs| == |items|
    decreases items, 0
  {
    if items == [] then []
    else
      [Item(ItemGap(fmt, first), LayoutOf(items[0], depth, fmt), "")]
      + ItemsOf(items[1..], depth, fmt, false)
  }

  function ItemGap(fmt: bool, first: bool): string {
    if fmt && !first then " " else ""
  }

  function PairsOf(members: seq<Member>, depth: nat, fmt: bool): (ps: seq<Pair>)
    requires depth > 0
    requires forall i | 0 <= i < |members| :: NulFree(members[i].name) && Printable(members[i].value)
    ensures |ps| == |members|
    decreases members, 0
  {
    if members == [] then []
    else
      [PairOf(members[0], LayoutOf(members[0].value, depth, fmt), depth, fmt, |members| == 1)]
      + PairsOf(members[1..], depth, fmt)
  }

  function PairOf(m: Member, value: Layout, depth: nat, fmt: bool, last: bool): Pair
    requires depth > 0 && NulFree(m.name)
  {
    Pair(NewLine(depth, fmt), PiecesOf(m.name), "", if fmt then "\t" else "", value,
         if last then NewLine(depth - 1, fmt) else "")
  }

  // ----- tokens -----

  lemma NumeralIs(d: real, rest: string)
    requires IsInt32(d)
    ensures NumeralOk(NumeralOf(d)) && NumeralValue(NumeralOf(d)) == d
    ensures NumeralText(NumeralOf(d), rest) == PrintNumber(d) + rest
    ensures EndsNumber(rest) ==> NumeralEnds(NumeralOf(d), rest)
  {
    var n := d.Floor;
    var m: nat := if n < 0 then -n else n;
    DigitsReadBack(m);
    assert Pow10(0) == 1.0 && Horner("", 0) == 0;
    assert Digits(m) + "" == Digits(m) && "" + "" == "";
    assert Digits(0) == "0";
    assert "" + rest == rest;
  }

  lemma PieceIs(c: char, rest: string)
    requires c != NUL
    ensures PieceOk(PieceOf(c)) && PieceValue(PieceOf(c)) == [c] && PieceText(PieceOf(c), rest) == EscapeChar(c) + rest
    ensures PieceOf(c).Code? ==> CodeOf(PieceOf(c).hex) < 0x20
  {
    if PieceOf(c).Code? {
      CodeIs(c, rest);
    } else {
      hide Hex4, ParseHex4, CodeOf;
      assert PieceText(PieceOf(c), rest) == EscapeChar(c) + rest;
    }
  }

  lemma CodeIs(c: char, rest: string)
    requires c != NUL && PieceOf(c).Code?
    ensures PieceOk(PieceOf(c)) && PieceValue(PieceOf(c)) == [c] && PieceText(PieceOf(c), rest) == EscapeChar(c) + rest
    ensures CodeOf(PieceOf(c).hex) < 0x20
  {
    var n := c as int;
    Hex4ReadsBack(n, "");
    Hex4Plain(n);
    assert Hex4(n) + "" == Hex4(n);
    assert CodeOf(Hex4(n)) == n;
    hide Hex4, ParseHex4, CodeOf;
    assert "\\u" + (Hex4(n) + rest) == "\\u" + Hex4(n) + rest;
  }

  lemma {:induction false} PiecesAre(s: string, rest: string)
    requires NulFree(s)
    ensures PiecesOk(PiecesOf(s)) && PiecesValue(PiecesOf(s)) == s && PiecesText(PiecesOf(s), rest) == Escape(s) + rest
  {
    hide PieceText, PieceValue, PieceOf, EscapeChar;
    if s == "" {
      assert "" + rest == rest;
    } else {
      PiecesAre(s[1..], rest);
      PieceIs(s[0], PiecesText(PiecesOf(s[1..]), rest));
      assert s == [s[0]] + s[1..];
      Associate(EscapeChar(s[0]), Escape(s[1..]), rest);
    }
  }

  lemma LiteralIs(s: string, rest: string)
    requires NulFree(s)
    ensures PiecesOk(PiecesOf(s)) && PiecesValue(PiecesOf(s)) == s
    ensures LiteralText(PiecesOf(s), true, rest) == PrintString(s) + rest
  {
    PiecesAre(s, "\"" + rest);
    assert "\"" + (Escape(s) + ("\"" + rest)) == PrintString(s) + rest;
  }

  // ----- trees -----

  lemma NewLineBlank(tabs: nat, fmt: bool)
    ensures Blank(NewLine(tabs, fmt))
  {}

  lemma {:induction false} LayoutTree(t: Json, depth: nat, fmt: bool)
    requires Printable(t)
    ensures WellFormed(LayoutOf(t, depth, fmt)) && Closed(LayoutOf(t, depth, fmt))
    ensures TreeOf(LayoutOf(t, depth, fmt)) == t
    decreases t, 0
  {
    match t
    case Arr(items) => ItemsTree(items, depth + 1, fmt, true);
    case Obj(members) => PairsTree(members, depth + 1, fmt);
    case Number(d) => NumeralIs(d, "");
    case Str(s) => PiecesAre(s, "");
    case _ =>
  }

  lemma {:induction false} ItemsTree(items: seq<Json>, depth: nat, fmt: bool, first: bool)
    requires forall i | 0 <= i < |items| :: Printable(items[i])
    ensures var xs := ItemsOf(items, depth, fmt, first);
      && (forall i | 0 <= i < |xs| :: Closed(xs[i].value) && WellFormed(xs[i].value))
      && TreesOf(xs) == items
    decreases items, 0
  {
    if items != [] {
      LayoutTree(items[0], depth, fmt);
      ItemsTree(items[1..], depth, fmt, false);
      assert ItemsOf(items, depth, fmt, first)[1..] == ItemsOf(items[1..], depth, fmt, false);
    }
  }

  lemma {:induction false} PairsTree(members: seq<Member>, depth: nat, fmt: bool)
    requires depth > 0
    requires forall i | 0 <= i < |members| :: NulFree(members[i].name) && Printable(members[i].value)
    ensures var ps := PairsOf(members, depth, fmt);
      && (forall i | 0 <= i < |ps| :: PiecesOk(ps[i].name) && Closed(ps[i].value) && WellFormed(ps[i].value))
      && MembersOf(ps) == members
    decreases members, 0
  {
    hide PiecesOf, PiecesOk, PiecesValue;
    if members != [] {
      LayoutTree(members[0].value, depth, fmt);
      PiecesAre(members[0].name, "");
      PairsTree(members[1..], depth, fmt);
      assert PairsOf(members, depth, fmt)[1..] == PairsOf(members[1..], depth, fmt);
    }
  }

  lemma {:induction false} LayoutSpaced(t: Json, depth: nat, fmt: bool, g: Gaps)
    requires Printable(t)
    ensures Spaced(LayoutOf(t, depth, fmt), g)
    decreases t, 0
  {
    hide Gap;
    BlankGap("", g);
    match t
    case Arr(items) =>
      ItemsSpaced(items, depth + 1, fmt, true, g);
      assert LayoutOf(t, depth, fmt) == Items("", ItemsOf(items, depth + 1, fmt, true));
    case Obj(members) =>
      var tabs := if depth == 0 then 0 else depth - 1;
      NewLineBlank(tabs, fmt);
      BlankGap(NewLine(tabs, fmt), g);
      PairsSpaced(members, depth + 1, fmt, g);
      assert LayoutOf(t, depth, fmt) == Members(NewLine(tabs, fmt), PairsOf(members, depth + 1, fmt));
    case _ =>
  }

  lemma {:induction false} ItemsSpaced(items: seq<Json>, depth: nat, fmt: bool, first: bool, g: Gaps)
    requires forall i | 0 <= i < |items| :: Printable(items[i])
    ensures var xs := ItemsOf(items, depth, fmt, first);
      forall i | 0 <= i < |xs| :: SpacedItem(xs[i], g) && Spaced(xs[i].value, g)
    decreases items, 0
  {
    hide Gap;
    if items != [] {
      BlankGap("", g);
      BlankGap(" ", g);
      LayoutSpaced(items[0], depth, fmt, g);
      ItemsSpaced(items[1..], depth, fmt, false, g);
      var xs := ItemsOf(items, depth, fmt, first);
      assert xs[1..] == ItemsOf(items[1..], depth, fmt, false);
      assert SpacedItem(xs[0], g) && Spaced(xs[0].value, g);
      assert forall i | 1 <= i < |xs| :: xs[i] == xs[1..][i - 1];
    }
  }

  lemma {:induction false} PairsSpaced(members: seq<Member>, depth: nat, fmt: bool, g: Gaps)
    requires depth > 0
    requires forall i | 0 <= i < |members| :: NulFree(members[i].name) && Printable(members[i].value)
    ensures var ps := PairsOf(members, depth, fmt);
      forall i | 0 <= i < |ps| :: SpacedPair(ps[i], g) && Spaced(ps[i].value, g)
    decreases members, 0
  {
    hide Gap, PiecesOf, NewLine;
    if members != [] {
      BlankGap("", g);
      BlankGap("\t", g);
      NewLineBlank(depth, fmt);
      BlankGap(NewLine(depth, fmt), g);
      NewLineBlank(depth - 1, fmt);
      BlankGap(NewLine(depth - 1, fmt), g);
      LayoutSpaced(members[0].value, depth, fmt, g);
      PairsSpaced(members[1..], depth, fmt, g);
      assert PairsOf(members, depth, fmt)[1..] == PairsOf(members[1..], depth, fmt);
    }
  }

  // Regroupings of concatenations.

  lemma Regroup4(a: string, b: string, c: string, d: string)
    ensures (a + b + c) + d == a + (b + (c + d))
  {}

  lemma Regroup5(a: string, b: string, c: string, d: string, e: string)
    ensures a + (b + (c + (d + e))) == (a + (b + c) + d) + e
  {}

  /** The layout spells out exactly what the printer writes. */
  lemma {:induction false} LayoutText(t: Json, depth: nat, fmt: bool, rest: string)
    requires Printable(t)
    ensures Text(LayoutOf(t, depth, fmt), rest) == PrintValue(t, depth, fmt) + rest
    decreases t, 0
  {
    hide Text, PrintValue;
    if t.Arr? {
      if t.items != [] { ItemsOfText(t.items, depth + 1, fmt, true, rest); }
      ArrayText(t.items, depth, fmt, rest);
    } else if t.Obj? {
      if t.members != [] { PairsOfText(t.members, depth + 1, fmt, rest); }
      MembersLayoutText(t.members, depth, fmt, rest);
    } else {
      ScalarText(t, depth, fmt, rest);
    }
  }

  lemma ScalarText(t: Json, depth: nat, fmt: bool, rest: string)
    requires !t.Arr? && !t.Obj? && Printable(t)
    ensures Text(LayoutOf(t, depth, fmt), rest) == PrintValue(t, depth, fmt) + rest
  {
    hide PrintItems, PrintMembers, ItemsText, MembersText, PrintNumber, PrintString, NumeralText, LiteralText, PiecesOf;
    match t
    case Number(d) => NumeralIs(d, rest);
    case Str(s) => LiteralIs(s, rest);
    case _ =>
  }

  lemma ArrayText(items: seq<Json>, depth: nat, fmt: bool, rest: string)
    requires Printable(Arr(items))
    requires items != [] ==>
      ItemsText(ItemsOf(items, depth + 1, fmt, true), rest) == "" + (PrintItems(items, depth + 1, fmt) + ("]" + rest))
    ensures Text(LayoutOf(Arr(items), depth, fmt), rest) == PrintValue(Arr(items), depth, fmt) + rest
  {
    hide PrintItems, ItemsText, ItemsOf, PrintMembers, MembersText;
    if items == [] {
      assert "[" + ("" + ("]" + rest)) == "[]" + rest;
    } else {
      Regroup4("[", PrintItems(items, depth + 1, fmt), "]", rest);
    }
  }

  lemma MembersLayoutText(members: seq<Member>, depth: nat, fmt: bool, rest: string)
    requires Printable(Obj(members))
    requires members != [] ==>
      MembersText(PairsOf(members, depth + 1, fmt), rest) ==
        (if fmt then "\n" else "") + (PrintMembers(members, depth + 1, fmt) + (ObjectClose(depth, fmt) + rest))
    ensures Text(LayoutOf(Obj(members), depth, fmt), rest) == PrintValue(Obj(members), depth, fmt) + rest
  {
    hide PrintItems, ItemsText, PairsOf, PrintMembers, MembersText, EmptyObject, ObjectOpen, ObjectClose, NewLine;
    if members == [] {
      EmptyObjectText(depth, fmt, rest);
    } else {
      ObjectText(PrintMembers(members, depth + 1, fmt), depth, fmt, rest);
    }
  }

  lemma EmptyObjectText(depth: nat, fmt: bool, rest: string)
    ensures "{" + (NewLine(if depth == 0 then 0 else depth - 1, fmt) + ("}" + rest)) == EmptyObject(depth, fmt) + rest
  {
    if fmt { Regroup5("{", "\n", Tabs(if depth == 0 then 0 else depth - 1), "}", rest); }
  }

  lemma ObjectText(members: string, depth: nat, fmt: bool, rest: string)
    ensures "{" + ((if fmt then "\n" else "") + (members + (ObjectClose(depth, fmt) + rest)))
         == ObjectOpen(fmt) + members + ObjectClose(depth, fmt) + rest
  {
    var nl := if fmt then "\n" else "";
    assert ObjectOpen(fmt) == "{" + nl;
    Regroup5("{", nl, members, ObjectClose(depth, fmt), rest);
  }

  lemma {:induction false} ItemsOfText(items: seq<Json>, depth: nat, fmt: bool, first: bool, rest: string)
    requires items != [] && forall i | 0 <= i < |items| :: Printable(items[i])
    ensures ItemsText(ItemsOf(items, depth, fmt, first), rest)
         == ItemGap(fmt, first) + (PrintItems(items, depth, fmt) + ("]" + rest))
    decreases items, 0
  {
    hide PrintValue, Text;
    var xs := ItemsOf(items, depth, fmt, first);
    var v := PrintValue(items[0], depth, fmt);
    assert "" + ItemsTail(xs, rest) == ItemsTail(xs, rest);
    LayoutText(items[0], depth, fmt, ItemsTail(xs, rest));
    if |items| == 1 {
      assert PrintItems(items, depth, fmt) == v + "" + "" == v;
    } else {
      assert xs[1..] == ItemsOf(items[1..], depth, fmt, false);
      ItemsOfText(items[1..], depth, fmt, false, rest);
      assert ItemSeparator(fmt) == "," + ItemGap(fmt, false);
      Regroup5(v, ",", ItemGap(fmt, false), PrintItems(items[1..], depth, fmt), "]" + rest);
    }
  }

  lemma {:induction false} PairsOfText(members: seq<Member>, depth: nat, fmt: bool, rest: string)
    requires depth > 0 && members != []
    requires forall i | 0 <= i < |members| :: NulFree(members[i].name) && Printable(members[i].value)
    ensures MembersText(PairsOf(members, depth, fmt), rest)
         == (if fmt then "\n" else "") + (PrintMembers(members, depth, fmt) + (ObjectClose(depth - 1, fmt) + rest))
    decreases members, 0
  {
    hide PrintValue, Text;
    var ps := PairsOf(members, depth, fmt);
    var nl := if fmt then "\n" else "";
    var v := PrintValue(members[0].value, depth, fmt);
    var head := MemberHead(members[0].name, depth, fmt);
    var close := ObjectClose(depth - 1, fmt) + rest;
    var k := ps[0].after + MembersTail(ps, rest);
    LayoutText(members[0].value, depth, fmt, k);
    PairHeadText(ps[0], members[0].name, v, depth, fmt, k);
    if |members| == 1 {
      LastPairText(v, depth, fmt, rest);
      assert PrintMembers(members, depth, fmt) == head + v + nl + "" == head + v + nl;
      Regroup4(head, v, nl, close);
    } else {
      assert ps[1..] == PairsOf(members[1..], depth, fmt);
      PairsOfText(members[1..], depth, fmt, rest);
      assert MemberTail(false, fmt) == "," + nl;
      var ms := PrintMembers(members[1..], depth, fmt);
      assert k == "," + (nl + (ms + close));
      PairsRegroup(head, v, nl, ms, close);
    }
  }

  lemma PairsRegroup(head: string, v: string, nl: string, ms: string, close: string)
    ensures head + (v + ("," + (nl + (ms + close)))) == head + v + ("," + nl) + ms + close
  {
    Regroup5(head + v, ",", nl, ms, close);
  }

  lemma PairHeadText(p: Pair, name: string, v: string, depth: nat, fmt: bool, k: string)
    requires NulFree(name)
    requires p.before == NewLine(depth, fmt) && p.name == PiecesOf(name) && p.afterName == ""
    requires p.beforeValue == if fmt then "\t" else ""
    requires Text(p.value, k) == v + k
    ensures PairText(p, k) == (if fmt then "\n" else "") + (MemberHead(name, depth, fmt) + (v + k))
  {
    hide Text, LiteralText, PiecesOf;
    var tabs := if fmt then Tabs(depth) else "";
    var nl := if fmt then "\n" else "";
    var colon := if fmt then ":\t" else ":";
    assert p.before == nl + tabs;
    assert MemberHead(name, depth, fmt) == tabs + PrintString(name) + colon;
    hide NewLine, Tabs, PrintString, MemberHead;
    assert ":" + (p.beforeValue + (v + k)) == colon + (v + k);
    assert "" + (colon + (v + k)) == colon + (v + k);
    LiteralIs(name, colon + (v + k));
    Regroup4(tabs, PrintString(name), colon, v + k);
    Associate(nl, tabs, PrintString(name) + (colon + (v + k)));
  }

  lemma LastPairText(v: string, depth: nat, fmt: bool, rest: string)
    requires depth > 0
    ensures NewLine(depth - 1, fmt) + ("}" + rest) == (if fmt then "\n" else "") + (ObjectClose(depth - 1, fmt) + rest)
  {
    if fmt { Regroup4("\n", Tabs(depth - 1), "}", rest); }
  }

  /** Printing and parsing, in either mode, at any depth and with any harmless text behind. */
  lemma RoundTrip(t: Json, depth: nat, fmt: bool, rest: string)
    requires Printable(t)
    requires t.Number? ==> EndsNumber(rest)
    ensures ParseValue(PrintValue(t, depth, fmt) + rest) == Parsed(t, rest)
  {
    hide NumeralEnds;
    LayoutTree(t, depth, fmt);
    LayoutSpaced(t, depth, fmt, Skipped);
    LayoutText(t, depth, fmt, rest);
    if t.Number? { NumeralIs(t.value, rest); }
    ParseText(LayoutOf(t, depth, fmt), rest);
  }

  /** Printed texts determine the tree. */
  lemma PrintInjective(t: Json, u: Json, depth: nat, fmt: bool)
    requires Printable(t) && Printable(u)
    requires PrintValue(t, depth, fmt) == PrintValue(u, depth, fmt)
    ensures t == u
  {
    RoundTrip(t, depth, fmt, "");
    RoundTrip(u, depth, fmt, "");
  }
}
