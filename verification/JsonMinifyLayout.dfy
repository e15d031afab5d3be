/** What the minifier leaves: the tokens of a text as they are, and nothing of the white space and the
    comments between them. */
module JsonMinifyLayout {

  import opened CString
  import opened Json
  import opened JsonLayout
  import opened JsonMinify
  import opened JsonParse
  import opened JsonPrint
  import opened JsonRoundTrip
  import opened JsonTokens

  /** Minifying `s` leaves `m`. */
  ghost predicate Leaves(s: string, m: string) {
    Minified(s).Parsed? && Minified(s).value == m
  }

  // ----- gaps -----

  lemma {:induction false} SkipLineComment(c: string, k: nat, s: string)
    requires LineComment(c) && 2 <= k < |c|
    ensures SkipLine(c[k..] + s) == "\n" + s
    decreases |c| - k
  {
    var t := c[k..] + s;
    assert t[0] == c[k];
    if k == |c| - 1 {
      assert t == "\n" + s;
    } else {
      assert t[1..] == c[k + 1..] + s;
      SkipLineComment(c, k + 1, s);
    }
  }

  lemma MinifyLineComment(c: string, s: string)
    requires LineComment(c)
    ensures Minified(c + s) == Minified(s)
  {
    var t := c + s;
    assert t[0] == '/' && t[1] == '/' && t[1..][1..] == c[2..] + s;
    SkipLineComment(c, 2, s);
    assert SkipLine(t) == SkipLine(t[1..]) == SkipLine(t[1..][1..]);
    assert ("\n" + s)[1..] == s;
  }

  lemma {:induction false} SkipBlockComment(c: string, k: nat, s: string)
    requires BlockComment(c) && 1 <= k <= |c| - 2
    ensures SkipComment(c[k..] + s).Parsed? && SkipComment(c[k..] + s).rest == s
    decreases |c| - k
  {
    var t := c[k..] + s;
    assert t[0] == c[k] && t[1] == c[k + 1];
    if k == |c| - 2 {
      assert t[2..] == s;
    } else {
      assert t[1..] == c[k + 1..] + s;
      SkipBlockComment(c, k + 1, s);
    }
  }

  lemma MinifyBlockComment(c: string, s: string)
    requires BlockComment(c)
    ensures Minified(c + s) == Minified(s)
  {
    var t := c + s;
    assert t[0] == '/' && t[1] == '*' && t[1..] == c[1..] + s;
    SkipBlockComment(c, 1, s);
    assert SkipComment(t) == SkipComment(t[1..]);
  }

  /** White space and comments leave nothing. */
  lemma {:induction false} MinifyGap(gap: string, s: string)
    requires Removable(gap)
    ensures Minified(gap + s) == Minified(s)
    decreases |gap|
  {
    hide Minified, LineComment, BlockComment;
    if gap == "" {
      assert gap + s == s;
    } else if IsSpace(gap[0]) && Removable(gap[1..]) {
      assert gap + s == [gap[0]] + (gap[1..] + s);
      MinifySpace(gap[0], gap[1..] + s);
      MinifyGap(gap[1..], s);
    } else {
      var n :| 3 <= n <= |gap| && (LineComment(gap[..n]) || BlockComment(gap[..n])) && Removable(gap[n..]);
      assert gap + s == gap[..n] + (gap[n..] + s);
      if LineComment(gap[..n]) {
        MinifyLineComment(gap[..n], gap[n..] + s);
      } else {
        MinifyBlockComment(gap[..n], gap[n..] + s);
      }
      MinifyGap(gap[n..], s);
    }
  }

  lemma MinifySpace(c: char, s: string)
    requires IsSpace(c)
    ensures Minified([c] + s) == Minified(s)
  {
    assert ([c] + s)[1..] == s;
  }

  /** From two slashes to the end of the text, without a line break. */
  predicate OpenComment(c: string) {
    |c| >= 2 && c[0] == '/' && c[1] == '/' && forall i | 0 <= i < |c| :: c[i] != '\n'
  }

  /** At the end of the text a line comment needs no line break. */
  predicate LastGap(s: string) {
    Removable(s) || exists n | 0 <= n <= |s| :: Removable(s[..n]) && OpenComment(s[n..])
  }

  lemma {:induction false} SkipWholeLine(s: string)
    requires forall i | 0 <= i < |s| :: s[i] != '\n'
    ensures SkipLine(s) == ""
  {
    if s != "" { SkipWholeLine(s[1..]); }
  }

  lemma MinifyOpenComment(c: string)
    requires OpenComment(c)
    ensures Leaves(c, "")
  {
    SkipWholeLine(c);
  }

  lemma MinifyLastGap(s: string)
    requires LastGap(s)
    ensures Leaves(s, "")
  {
    hide Removable, OpenComment, Minified;
    if Removable(s) {
      MinifyGap(s, "");
      assert s + "" == s;
      MinifyNothing();
    } else {
      var n :| 0 <= n <= |s| && Removable(s[..n]) && OpenComment(s[n..]);
      assert s == s[..n] + s[n..];
      MinifyOpenComment(s[n..]);
      MinifyGap(s[..n], s[n..]);
    }
  }

  lemma MinifyNothing()
    ensures Leaves("", "")
  {}

  // ----- tokens -----

  /** Characters that minifying copies one by one. */
  predicate Copied(token: string) {
    forall i | 0 <= i < |token| :: !IsSpace(token[i]) && token[i] != '/' && token[i] != '\"'
  }

  lemma {:induction false} MinifyCopied(token: string, rest: string, m: string)
    requires Copied(token) && Leaves(rest, m)
    ensures Leaves(token + rest, token + m)
  {
    if token == "" {
      assert token + rest == rest && token + m == m;
    } else {
      var s := token + rest;
      assert s[1..] == token[1..] + rest && s[0] == token[0];
      MinifyCopied(token[1..], rest, m);
      assert token + m == [token[0]] + (token[1..] + m);
    }
  }

  /** A slash that opens no comment is copied as well. */
  lemma MinifySlash(rest: string, m: string)
    requires Leaves(rest, m) && Head(rest) != '/' && Head(rest) != '*'
    ensures Leaves("/" + rest, "/" + m)
  {
    assert ("/" + rest)[1..] == rest;
  }

  lemma MinifyNumeral(n: Numeral, rest: string, m: string)
    requires NumeralOk(n) && Leaves(rest, m)
    ensures Leaves(NumeralText(n, rest), NumeralText(n, m))
  {
    hide Leaves;
    var e := n.exponent;
    if e.Exponent? {
      MinifyCopied(e.digits, rest, m);
      MinifyCopied(e.sign, e.digits + rest, e.digits + m);
      MinifyCopied([e.mark], e.sign + (e.digits + rest), e.sign + (e.digits + m));
    }
    var s2, m2 := ExponentText(e, rest), ExponentText(e, m);
    if n.fraction != "" {
      MinifyCopied(n.fraction, s2, m2);
      MinifyCopied(".", n.fraction + s2, n.fraction + m2);
    }
    var s1, m1 := FractionText(n.fraction, s2), FractionText(n.fraction, m2);
    MinifyCopied(n.digits, s1, m1);
    var zero := if n.zero then "0" else "";
    MinifyCopied(zero, n.digits + s1, n.digits + m1);
    MinifyCopied(if n.minus then "-" else "", zero + (n.digits + s1), zero + (n.digits + m1));
  }

  lemma {:induction false} CopyPlain(token: string, tail: string)
    requires forall i | 0 <= i < |token| :: token[i] != '\"' && token[i] != '\\'
    requires CopyLiteral(tail).Parsed?
    ensures CopyLiteral(token + tail) == Parsed(token + CopyLiteral(tail).value, CopyLiteral(tail).rest)
  {
    if token == "" {
      assert token + tail == tail && "" + CopyLiteral(tail).value == CopyLiteral(tail).value;
    } else {
      assert (token + tail)[1..] == token[1..] + tail;
      CopyPlain(token[1..], tail);
      Associate([token[0]], token[1..], CopyLiteral(tail).value);
      assert [token[0]] + token[1..] == token;
    }
  }

  lemma CopyTwo(c: char, tail: string)
    requires CopyLiteral(tail).Parsed?
    ensures CopyLiteral(['\\', c] + tail) == Parsed(['\\', c] + CopyLiteral(tail).value, CopyLiteral(tail).rest)
  {
    var text := ['\\', c] + tail;
    assert text[2..] == tail && [text[0], text[1]] == ['\\', c];
  }

  lemma CopyCode(hex: string, tail: string)
    requires Four(hex) && CopyLiteral(tail).Parsed?
    ensures CopyLiteral("\\u" + (hex + tail)) == Parsed("\\u" + (hex + CopyLiteral(tail).value), CopyLiteral(tail).rest)
  {
    CopyPlain(hex, tail);
    assert ['\\', 'u'] == "\\u";
    CopyTwo('u', hex + tail);
  }

  lemma CopyPiece(p: Piece, tail: string)
    requires PieceOk(p) && CopyLiteral(tail).Parsed?
    ensures CopyLiteral(PieceText(p, tail)) == Parsed(PieceText(p, CopyLiteral(tail).value), CopyLiteral(tail).rest)
  {
    hide CodeOf;
    match p
    case Char(c) => CopyPlain([c], tail);
    case Escaped(c) => CopyTwo(c, tail);
    case Code(hex) => CopyCode(hex, tail);
    case Surrogates(high, low) =>
      CopyCode(low, tail);
      CopyCode(high, "\\u" + (low + tail));
  }

  lemma {:induction false} CopyPieces(ps: seq<Piece>, rest: string)
    requires PiecesOk(ps)
    ensures CopyLiteral(PiecesText(ps, "\"" + rest)) == Parsed(PiecesText(ps, "\""), rest)
  {
    hide CopyLiteral, PieceText, PieceOk;
    if ps == [] {
      CopyClose(rest);
    } else {
      CopyPieces(ps[1..], rest);
      CopyPiece(ps[0], PiecesText(ps[1..], "\"" + rest));
    }
  }

  lemma CopyClose(rest: string)
    ensures CopyLiteral("\"" + rest) == Parsed("\"", rest)
  {
    assert ("\"" + rest)[1..] == rest;
  }

  lemma {:induction false} PiecesAppend(ps: seq<Piece>, a: string, b: string)
    ensures PiecesText(ps, a) + b == PiecesText(ps, a + b)
  {
    if ps != [] {
      PiecesAppend(ps[1..], a, b);
      PieceAppend(ps[0], PiecesText(ps[1..], a), b);
    }
  }

  lemma PieceAppend(p: Piece, a: string, b: string)
    ensures PieceText(p, a) + b == PieceText(p, a + b)
  {
    match p
    case Char(c) => Associate([c], a, b);
    case Escaped(c) => Associate(['\\', c], a, b);
    case Code(hex) => Regroup4("\\u", hex, a, b); assert "\\u" + (hex + a) == "\\u" + hex + a;
    case Surrogates(high, low) =>
      var tail := "\\u" + (low + a);
      assert tail + b == "\\u" + (low + (a + b));
      assert "\\u" + (high + tail) + b == "\\u" + (high + (tail + b));
  }

  /** A literal is copied as it is, whatever it contains. */
  lemma MinifyLiteral(ps: seq<Piece>, rest: string, m: string)
    requires PiecesOk(ps) && Leaves(rest, m)
    ensures Leaves(LiteralText(ps, true, rest), LiteralText(ps, true, m))
  {
    hide CopyLiteral, PiecesText;
    var s := LiteralText(ps, true, rest);
    CopyPieces(ps, rest);
    PiecesAppend(ps, "\"", m);
    assert s[0] == '\"' && s[1..] == PiecesText(ps, "\"" + rest);
    assert "\"" + PiecesText(ps, "\"") + m == "\"" + (PiecesText(ps, "\"") + m);
  }

  // ----- whole texts -----

  /** The layout without its gaps. */
  function Bare(l: Layout): Layout
    decreases l, 0
  {
    match l
    case Items(_, items) => Items("", BareItems(items))
    case Members(_, members) => Members("", BareMembers(members))
    case _ => l
  }

  function BareItems(items: seq<Item>): (xs: seq<Item>)
    ensures |xs| == |items|
    decreases items, 0
  {
    if items == [] then [] else [Item("", Bare(items[0].value), "")] + BareItems(items[1..])
  }

  function BareMembers(members: seq<Pair>): (ps: seq<Pair>)
    ensures |ps| == |members|
    decreases members, 0
  {
    if members == [] then []
    else [Pair("", members[0].name, "", "", Bare(members[0].value), "")] + BareMembers(members[1..])
  }

  /** Minifying the text of a layout leaves the text of the layout without its gaps. */
  lemma {:induction false} MinifyText(l: Layout, rest: string, m: string)
    requires WellFormed(l) && Spaced(l, Removed) && Closed(l) && Leaves(rest, m)
    ensures Leaves(Text(l, rest), Text(Bare(l), m))
    decreases l, 0
  {
    hide Leaves, Removable;
    match l
    case Word(v) => MinifyCopied(WordText(v), rest, m);
    case Figure(n) => MinifyNumeral(n, rest, m);
    case Quoted(ps, _) => MinifyLiteral(ps, rest, m);
    case Items(gap, items) =>
      if items == [] {
        MinifyCopied("]", rest, m);
        LeavesGap(gap, "]" + rest, "]" + m);
        MinifyCopied("[", gap + ("]" + rest), "]" + m);
        assert "" + ("]" + m) == "]" + m;
      } else {
        MinifyItems(items, rest, m);
        MinifyCopied("[", ItemsText(items, rest), ItemsText(BareItems(items), m));
      }
    case Members(gap, members) =>
      if members == [] {
        MinifyCopied("}", rest, m);
        LeavesGap(gap, "}" + rest, "}" + m);
        MinifyCopied("{", gap + ("}" + rest), "}" + m);
        assert "" + ("}" + m) == "}" + m;
      } else {
        MinifyMembers(members, rest, m);
        MinifyCopied("{", MembersText(members, rest), MembersText(BareMembers(members), m));
      }
  }

  lemma LeavesGap(gap: string, s: string, m: string)
    requires Gap(gap, Removed) && Leaves(s, m)
    ensures Leaves(gap + s, "" + m)
  {
    MinifyGap(gap, s);
    assert "" + m == m;
  }

  lemma {:induction false} MinifyItems(items: seq<Item>, rest: string, m: string)
    requires items != [] && Leaves(rest, m)
    requires forall i | 0 <= i < |items| :: Closed(items[i].value) && WellFormed(items[i].value)
    requires forall i | 0 <= i < |items| :: SpacedItem(items[i], Removed) && Spaced(items[i].value, Removed)
    ensures Leaves(ItemsText(items, rest), ItemsText(BareItems(items), m))
    decreases items, 0
  {
    hide Leaves, Text, Gap;
    var x, xs := items[0], BareItems(items);
    var tail, end := ItemsTail(items, rest), ItemsTail(xs, m);
    if |items| == 1 {
      MinifyCopied("]", rest, m);
    } else {
      MinifyItems(items[1..], rest, m);
      assert xs[1..] == BareItems(items[1..]);
      MinifyCopied(",", ItemsText(items[1..], rest), ItemsText(xs[1..], m));
    }
    LeavesGap(x.after, tail, end);
    MinifyText(x.value, x.after + tail, "" + end);
    LeavesGap(x.before, Text(x.value, x.after + tail), Text(Bare(x.value), "" + end));
  }

  lemma {:induction false} MinifyPair(p: Pair, rest: string, m: string)
    requires PiecesOk(p.name) && Closed(p.value) && WellFormed(p.value)
    requires SpacedPair(p, Removed) && Spaced(p.value, Removed) && Leaves(rest, m)
    ensures Leaves(PairText(p, rest), PairText(Pair("", p.name, "", "", Bare(p.value), ""), m))
    decreases p, 0
  {
    hide Leaves, Text, Gap, LiteralText;
    var s4, m4 := Text(p.value, rest), Text(Bare(p.value), m);
    MinifyText(p.value, rest, m);
    LeavesGap(p.beforeValue, s4, m4);
    MinifyCopied(":", p.beforeValue + s4, "" + m4);
    var s2, m2 := ":" + (p.beforeValue + s4), ":" + ("" + m4);
    LeavesGap(p.afterName, s2, m2);
    MinifyLiteral(p.name, p.afterName + s2, "" + m2);
    LeavesGap(p.before, LiteralText(p.name, true, p.afterName + s2), LiteralText(p.name, true, "" + m2));
  }

  lemma {:induction false} MinifyMembers(members: seq<Pair>, rest: string, m: string)
    requires members != [] && Leaves(rest, m)
    requires forall i | 0 <= i < |members| ::
      PiecesOk(members[i].name) && Closed(members[i].value) && WellFormed(members[i].value)
    requires forall i | 0 <= i < |members| :: SpacedPair(members[i], Removed) && Spaced(members[i].value, Removed)
    ensures Leaves(MembersText(members, rest), MembersText(BareMembers(members), m))
    decreases members, 0
  {
    hide Leaves, PairText, Gap;
    var p, ps := members[0], BareMembers(members);
    var tail, end := MembersTail(members, rest), MembersTail(ps, m);
    if |members| == 1 {
      MinifyCopied("}", rest, m);
    } else {
      MinifyMembers(members[1..], rest, m);
      assert ps[1..] == BareMembers(members[1..]);
      MinifyCopied(",", MembersText(members[1..], rest), MembersText(ps[1..], m));
    }
    LeavesGap(p.after, tail, end);
    MinifyPair(p, p.after + tail, "" + end);
  }

  /** A text with white space and comments anywhere between its tokens, and around it, is left with its tokens. */
  lemma MinifyRemoves(l: Layout, before: string, after: string)
    requires WellFormed(l) && Spaced(l, Removed) && Closed(l) && Removable(before) && LastGap(after)
    ensures Leaves(before + Text(l, after), Text(Bare(l), ""))
  {
    hide Minified;
    MinifyLastGap(after);
    MinifyText(l, after, "");
    MinifyGap(before, Text(l, after));
  }

  // ----- printed texts -----

  /** Without their gaps the layouts of both modes, at any depth, are the same. */
  lemma {:induction false} BareLayout(t: Json, depth: nat, other: nat, fmt: bool)
    requires Printable(t)
    ensures Bare(LayoutOf(t, depth, fmt)) == LayoutOf(t, other, false)
    decreases t, 0
  {
    match t
    case Arr(items) =>
      BareItemsOf(items, depth + 1, other + 1, fmt, true);
      assert LayoutOf(t, depth, fmt) == Items("", ItemsOf(items, depth + 1, fmt, true));
    case Obj(members) =>
      BarePairsOf(members, depth + 1, other + 1, fmt);
      assert LayoutOf(t, depth, fmt).members == PairsOf(members, depth + 1, fmt);
    case _ =>
  }

  lemma {:induction false} BareItemsOf(items: seq<Json>, depth: nat, other: nat, fmt: bool, first: bool)
    requires forall i | 0 <= i < |items| :: Printable(items[i])
    ensures BareItems(ItemsOf(items, depth, fmt, first)) == ItemsOf(items, other, false, first)
    decreases items, 0
  {
    if items != [] {
      BareLayout(items[0], depth, other, fmt);
      BareItemsOf(items[1..], depth, other, fmt, false);
      assert ItemsOf(items, depth, fmt, first)[1..] == ItemsOf(items[1..], depth, fmt, false);
    }
  }

  lemma {:induction false} BarePairsOf(members: seq<Member>, depth: nat, other: nat, fmt: bool)
    requires depth > 0 && other > 0
    requires forall i | 0 <= i < |members| :: NulFree(members[i].name) && Printable(members[i].value)
    ensures BareMembers(PairsOf(members, depth, fmt)) == PairsOf(members, other, false)
    decreases members, 0
  {
    hide PiecesOf;
    if members != [] {
      BareLayout(members[0].value, depth, other, fmt);
      BarePairsOf(members[1..], depth, other, fmt);
      assert PairsOf(members, depth, fmt)[1..] == PairsOf(members[1..], depth, fmt);
    }
  }

  /** A printed tree with any white space and comments between its tokens is left as the unformatted text. */
  lemma MinifyIsUnformatted(l: Layout, t: Json, before: string, after: string)
    requires Printable(t) && Bare(l) == LayoutOf(t, 0, false)
    requires WellFormed(l) && Spaced(l, Removed) && Closed(l) && Removable(before) && LastGap(after)
    ensures Leaves(before + Text(l, after), PrintValue(t, 0, false))
  {
    MinifyRemoves(l, before, after);
    LayoutText(t, 0, false, "");
    assert PrintValue(t, 0, false) + "" == PrintValue(t, 0, false);
  }

  /** Minifying formatted output gives the unformatted output, and both parse to the same tree. */
  lemma MinifyFormatted(t: Json, depth: nat)
    requires Printable(t)
    ensures Leaves(PrintValue(t, depth, true), PrintValue(t, depth, false))
    ensures ParseValue(PrintValue(t, depth, true)) == ParseValue(PrintValue(t, depth, false)) == Parsed(t, "")
  {
    hide Minified, ParseValue;
    var l := LayoutOf(t, depth, true);
    LayoutTree(t, depth, true);
    LayoutSpaced(t, depth, true, Removed);
    BareLayout(t, depth, depth, true);
    MinifyRemoves(l, "", "");
    LayoutText(t, depth, true, "");
    LayoutText(t, depth, false, "");
    assert "" + Text(l, "") == PrintValue(t, depth, true) + "" == PrintValue(t, depth, true);
    RoundTrip(t, depth, true, "");
    RoundTrip(t, depth, false, "");
    assert PrintValue(t, depth, false) + "" == PrintValue(t, depth, false);
  }

  // ----- the tree -----

  lemma {:induction false} BareTree(l: Layout)
    requires WellFormed(l)
    ensures WellFormed(Bare(l)) && Spaced(Bare(l), Skipped) && TreeOf(Bare(l)) == TreeOf(l)
    ensures Closed(l) ==> Closed(Bare(l))
    decreases l, 0
  {
    hide Gap;
    BlankGap("", Skipped);
    match l
    case Items(_, items) => BareItemsTree(items);
    case Members(_, members) => BareMembersTree(members);
    case _ =>
  }

  lemma {:induction false} BareItemsTree(items: seq<Item>)
    requires forall i | 0 <= i < |items| :: Closed(items[i].value) && WellFormed(items[i].value)
    ensures var xs := BareItems(items);
      && (forall i | 0 <= i < |xs| :: Closed(xs[i].value) && WellFormed(xs[i].value))
      && (forall i | 0 <= i < |xs| :: SpacedItem(xs[i], Skipped) && Spaced(xs[i].value, Skipped))
      && TreesOf(xs) == TreesOf(items)
    decreases items, 0
  {
    hide Gap;
    BlankGap("", Skipped);
    if items != [] {
      BareTree(items[0].value);
      BareItemsTree(items[1..]);
      assert BareItems(items)[1..] == BareItems(items[1..]);
    }
  }

  lemma {:induction false} BareMembersTree(members: seq<Pair>)
    requires forall i | 0 <= i < |members| ::
      PiecesOk(members[i].name) && Closed(members[i].value) && WellFormed(members[i].value)
    ensures var ps := BareMembers(members);
      && (forall i | 0 <= i < |ps| :: PiecesOk(ps[i].name) && Closed(ps[i].value) && WellFormed(ps[i].value))
      && (forall i | 0 <= i < |ps| :: SpacedPair(ps[i], Skipped) && Spaced(ps[i].value, Skipped))
      && MembersOf(ps) == MembersOf(members)
    decreases members, 0
  {
    hide Gap, PiecesOk, PiecesValue;
    BlankGap("", Skipped);
    if members != [] {
      BareTree(members[0].value);
      BareMembersTree(members[1..]);
      assert BareMembers(members)[1..] == BareMembers(members[1..]);
    }
  }

  lemma LastGapFollows(l: Layout, after: string)
    requires WellFormed(l) && Closed(l) && LastGap(after)
    ensures Follows(l, after)
  {
    if l.Figure? {
      assert Head(after) == '/' || Head(after) <= ' ';
      QuietEnds(l.numeral, after);
    }
  }

  /** The minified text spells the tree of the text with comments; where there are none, the text itself
      spells it as well. */
  lemma MinifyKeepsTree(l: Layout, before: string, after: string)
    requires WellFormed(l) && Spaced(l, Removed) && Closed(l) && Removable(before) && LastGap(after)
    ensures Minified(before + Text(l, after)).Parsed?
    ensures ParseValue(Minified(before + Text(l, after)).value) == Parsed(TreeOf(l), "")
    ensures Spaced(l, Skipped) && Gap(before, Skipped) ==>
      ParseValue(Skip(before + Text(l, after))) == Parsed(TreeOf(l), after)
  {
    hide Minified, ParseValue, Text, TreeOf, Bare;
    MinifyRemoves(l, before, after);
    BareTree(l);
    QuietFollows(Bare(l), "", "");
    assert "" + "" == "";
    ParseText(Bare(l), "");
    if Spaced(l, Skipped) && Gap(before, Skipped) {
      LastGapFollows(l, after);
      TextHead(l, after);
      SkipGap(before, Text(l, after));
      ParseText(l, after);
    }
  }
}
