/** The printed text in its characters: which layouts the two printer modes write. */
module JsonPretty {

  import opened CString
  import opened Json
  import opened JsonLayout
  import opened JsonPrint
  import opened JsonRoundTrip
  import opened JsonScalars
  import opened JsonTokens

  // ----- tokens as they are printed -----

  /** Decimal, without leading zeros; zero itself without a sign. */
  predicate PlainNumeral(n: Numeral) {
    && n.fraction == "" && n.exponent.NoExponent?
    && n.zero == (n.digits == "") && (n.zero ==> !n.minus)
  }

  /** Visible characters as they are; the short escapes where there are any; else the code in lower case. */
  predicate PlainPiece(p: Piece) {
    match p
    case Char(c) => c >= ' '
    case Escaped(c) => c == '\"' || c == '\\' || c == 'b' || c == 'f' || c == 'n' || c == 'r' || c == 't'
    case Code(hex) =>
      && |hex| == 4 && hex[0] == '0' && hex[1] == '0' && (hex[2] == '0' || hex[2] == '1')
      && ('0' <= hex[3] <= '9' || 'a' <= hex[3] <= 'f')
      && hex != "0008" && hex != "0009" && hex != "000a" && hex != "000c" && hex != "000d"
    case Surrogates(_, _) => false
  }

  predicate PlainPieces(ps: seq<Piece>) {
    forall i | 0 <= i < |ps| :: PlainPiece(ps[i])
  }

  // ----- white space as it is printed -----

  /** A line break, and then only tabs. */
  predicate Indent(gap: string, tabs: nat) {
    |gap| == tabs + 1 && gap[0] == '\n' && forall i | 1 <= i <= tabs :: gap[i] == '\t'
  }

  /** Without formatting nothing stands between tokens. With it, every member is on a line of its own, with
      one tab for each object or array around it, and a tab behind its colon; the closing brace is on a line
      of its own; a space follows the comma in an array; an empty object closes one tab further to the left. */
  predicate Pretty(l: Layout, depth: nat, fmt: bool)
    decreases l, 0
  {
    match l
    case Word(_) => true
    case Figure(n) => PlainNumeral(n)
    case Quoted(ps, closed) => closed && PlainPieces(ps)
    case Items(gap, items) => gap == "" && PrettyItems(items, depth + 1, fmt, true)
    case Members(gap, members) =>
      && (members == [] ==> if fmt then Indent(gap, if depth == 0 then 0 else depth - 1) else gap == "")
      && PrettyMembers(members, depth + 1, fmt)
  }

  predicate PrettyItems(items: seq<Item>, depth: nat, fmt: bool, first: bool)
    decreases items, 0
  {
    items != [] ==>
      && items[0].before == (if fmt && !first then " " else "") && items[0].after == ""
      && Pretty(items[0].value, depth, fmt)
      && PrettyItems(items[1..], depth, fmt, false)
  }

  predicate PrettyMembers(members: seq<Pair>, depth: nat, fmt: bool)
    requires depth > 0
    decreases members, 0
  {
    members != [] ==>
      var m := members[0];
      && (if fmt then Indent(m.before, depth) else m.before == "")
      && PlainPieces(m.name) && m.afterName == ""
      && m.beforeValue == (if fmt then "\t" else "")
      && (if fmt && |members| == 1 then Indent(m.after, depth - 1) else m.after == "")
      && Pretty(m.value, depth, fmt)
      && PrettyMembers(members[1..], depth, fmt)
  }

  lemma PrintedNumeral(d: real)
    requires IsInt32(d)
    ensures PlainNumeral(NumeralOf(d))
  {
    var n := d.Floor;
    DigitsReadBack(if n < 0 then -n else n);
  }

  lemma PrintedPiece(c: char)
    requires c != NUL
    ensures PlainPiece(PieceOf(c))
  {
    if PieceOf(c).Code? {
      var n := c as int;
      assert n / 0x1000 == 0 && n / 0x100 % 16 == 0 && n / 16 % 16 == n / 16;
      assert HexDigit(0) == '0' && HexDigit(1) == '1';
      var d := n % 16;
      assert HexDigit(d) == if d < 10 then (48 + d) as char else (87 + d) as char;
      assert n != 8 && n != 9 && n != 10 && n != 12 && n != 13;
      LastHexDigit(n);
    }
  }

  lemma LastHexDigit(n: nat)
    requires n < 0x20 && n != 8 && n != 9 && n != 10 && n != 12 && n != 13
    ensures var hex := Hex4(n);
      hex != "0008" && hex != "0009" && hex != "000a" && hex != "000c" && hex != "000d"
  {
    var hex := Hex4(n);
    if n < 16 {
      assert hex[3] == if n < 10 then (48 + n) as char else (87 + n) as char;
    } else {
      assert hex[2] == '1';
      assert "0008"[2] == '0' && "0009"[2] == '0' && "000a"[2] == '0' && "000c"[2] == '0' && "000d"[2] == '0';
    }
    assert "0008"[3] == '8' && "0009"[3] == '9' && "000a"[3] == 'a' && "000c"[3] == 'c' && "000d"[3] == 'd';
  }

  lemma {:induction false} PrintedPieces(s: string)
    requires NulFree(s)
    ensures PlainPieces(PiecesOf(s))
  {
    hide PlainPiece, PieceOf;
    if s != "" {
      PrintedPiece(s[0]);
      PrintedPieces(s[1..]);
    }
  }

  lemma NewLineIndents(tabs: nat)
    ensures Indent(NewLine(tabs, true), tabs) && NewLine(tabs, false) == ""
  {}

  lemma {:induction false} PrintedLayout(t: Json, depth: nat, fmt: bool)
    requires Printable(t)
    ensures Pretty(LayoutOf(t, depth, fmt), depth, fmt)
    decreases t, 0
  {
    hide PlainNumeral, PlainPieces, NumeralOf, PiecesOf, NewLine, Indent;
    match t
    case Arr(items) =>
      PrintedItems(items, depth + 1, fmt, true);
      assert LayoutOf(t, depth, fmt) == Items("", ItemsOf(items, depth + 1, fmt, true));
    case Obj(members) =>
      var tabs := if depth == 0 then 0 else depth - 1;
      NewLineIndents(tabs);
      PrintedMembers(members, depth + 1, fmt);
      assert LayoutOf(t, depth, fmt) == Members(NewLine(tabs, fmt), PairsOf(members, depth + 1, fmt));
    case Number(d) => PrintedNumeral(d);
    case Str(s) => PrintedPieces(s);
    case _ =>
  }

  lemma {:induction false} PrintedItems(items: seq<Json>, depth: nat, fmt: bool, first: bool)
    requires forall i | 0 <= i < |items| :: Printable(items[i])
    ensures PrettyItems(ItemsOf(items, depth, fmt, first), depth, fmt, first)
    decreases items, 0
  {
    if items != [] {
      PrintedLayout(items[0], depth, fmt);
      PrintedItems(items[1..], depth, fmt, false);
      assert ItemsOf(items, depth, fmt, first)[1..] == ItemsOf(items[1..], depth, fmt, false);
    }
  }

  lemma {:induction false} PrintedMembers(members: seq<Member>, depth: nat, fmt: bool)
    requires depth > 0
    requires forall i | 0 <= i < |members| :: NulFree(members[i].name) && Printable(members[i].value)
    ensures PrettyMembers(PairsOf(members, depth, fmt), depth, fmt)
    decreases members, 0
  {
    hide PlainPieces, PiecesOf, NewLine, Indent;
    if members != [] {
      NewLineIndents(depth);
      NewLineIndents(depth - 1);
      PrintedPieces(members[0].name);
      PrintedLayout(members[0].value, depth, fmt);
      PrintedMembers(members[1..], depth, fmt);
      assert PairsOf(members, depth, fmt)[1..] == PairsOf(members[1..], depth, fmt);
    }
  }

  /** The printed text, character by character: plain tokens, and between them just this white space. */
  lemma PrintedText(t: Json, depth: nat, fmt: bool) returns (l: Layout)
    requires Printable(t)
    ensures WellFormed(l) && Closed(l) && TreeOf(l) == t
    ensures Pretty(l, depth, fmt) && PrintValue(t, depth, fmt) == Text(l, "")
  {
    l := LayoutOf(t, depth, fmt);
    LayoutTree(t, depth, fmt);
    PrintedLayout(t, depth, fmt);
    LayoutText(t, depth, fmt, "");
    assert PrintValue(t, depth, fmt) + "" == PrintValue(t, depth, fmt);
  }
}
