/** The parser of cJSON.c building nodes in memory: it refines the functions of JsonParse, and whatever
    it allocates hangs on the node it was given, also when it fails half way. */
module JsonRead {

  import opened CString
  import opened Json
  import JsonAccept
  import opened JsonForest
  import opened JsonHeap
  import opened JsonParse
  import opened JsonReadScalars

  /** `(int)d`; out of range the C standard leaves the value open. */
  function CastInt(d: real): int {
    var n := if d >= 0.0 then d.Floor else -((-d).Floor);
    if INT_MIN <= n <= INT_MAX then n else INT_MIN
  }

  /** What a cast keeps is the whole part, nearest to zero. */
  lemma CastTruncates(d: real, n: int)
    requires INT_MIN <= n <= INT_MAX
    requires if d < 0.0 then n <= 0 && n as real - 1.0 < d <= n as real else n >= 0 && n as real <= d < n as real + 1.0
    ensures CastInt(d) == n
  {
    if d >= 0.0 {
      assert d.Floor == n;
    } else {
      assert (-d).Floor == -n;
    }
  }

  /** The node and what hangs on it spell the tree; the node's own name plays no part. */
  ghost predicate Represents(s: Shape, t: Json)
    reads Nodes(s)`kind, Nodes(s)`valueint, Nodes(s)`valuedouble, Strings(s)
    decreases s, 0
  {
    match t
    case Null => s.node.kind == NullItem && s.kids == []
    case False => s.node.kind == FalseItem && s.kids == []
    case True => s.node.kind == TrueItem && s.node.valueint == 1 && s.kids == []
    case Number(d) =>
      s.node.kind == NumberItem && s.node.valuedouble == d && s.node.valueint == CastInt(d) && s.kids == []
    case Str(x) => s.node.kind == StringItem && s.text != null && Holds(s.text, x) && s.kids == []
    case Arr(items) => s.node.kind == ArrayItem && RepresentAll(s.kids, items)
    case Obj(members) => s.node.kind == ObjectItem && RepresentMembers(s.kids, members)
  }

  ghost predicate RepresentAll(ss: seq<Shape>, ts: seq<Json>)
    reads NodesAll(ss)`kind, NodesAll(ss)`valueint, NodesAll(ss)`valuedouble, StringsAll(ss)
    decreases ss, 0
  {
    |ss| == |ts| && (ss != [] ==> Represents(ss[0], ts[0]) && RepresentAll(ss[1..], ts[1..]))
  }

  ghost predicate Named(s: Shape, name: string)
    reads Cell(s.name)
  {
    s.name != null && Holds(s.name, name)
  }

  ghost predicate RepresentMembers(ss: seq<Shape>, ms: seq<Member>)
    reads NodesAll(ss)`kind, NodesAll(ss)`valueint, NodesAll(ss)`valuedouble, StringsAll(ss)
    decreases ss, 0
  {
    && |ss| == |ms|
    && (ss != [] ==> Named(ss[0], ms[0].name) && Represents(ss[0], ms[0].value) && RepresentMembers(ss[1..], ms[1..]))
  }

  lemma {:induction false} SnocRepresents(ss: seq<Shape>, ts: seq<Json>, s: Shape, t: Json)
    requires RepresentAll(ss, ts) && Represents(s, t)
    ensures RepresentAll(ss + [s], ts + [t])
  {
    if ss == [] {
      assert ss + [s] == [s] && ts + [t] == [t];
    } else {
      SnocRepresents(ss[1..], ts[1..], s, t);
      assert (ss + [s])[1..] == ss[1..] + [s] && (ts + [t])[1..] == ts[1..] + [t];
    }
  }

  lemma {:induction false} SnocMembers(ss: seq<Shape>, ms: seq<Member>, s: Shape, m: Member)
    requires RepresentMembers(ss, ms) && Named(s, m.name) && Represents(s, m.value)
    ensures RepresentMembers(ss + [s], ms + [m])
  {
    if ss == [] {
      assert ss + [s] == [s] && ms + [m] == [m];
    } else {
      SnocMembers(ss[1..], ms[1..], s, m);
      assert (ss + [s])[1..] == ss[1..] + [s] && (ms + [m])[1..] == ms[1..] + [m];
    }
  }

  // ----- items and members in front of others -----

  function Prepend<T>(ts: seq<T>, r: Parsed<seq<T>>): Parsed<seq<T>> {
    if r.Parsed? then Parsed(ts + r.value, r.rest) else r
  }

  lemma PrependNothing<T>(r: Parsed<seq<T>>)
    ensures Prepend([], r) == r
  {
    if r.Parsed? { assert [] + r.value == r.value; }
  }

  lemma PrependTwice<T>(ts: seq<T>, t: T, r: Parsed<seq<T>>)
    ensures Prepend(ts, Prepend([t], r)) == Prepend(ts + [t], r)
  {
    if r.Parsed? { assert ts + ([t] + r.value) == ts + [t] + r.value; }
  }

  /** One item, and what its separator leads to. */
  lemma ItemStep(ts: seq<Json>, s: string)
    ensures
      var r := ParseValue(Skip(s));
      Prepend(ts, ParseItems(s)) ==
        if r.IsFailure() then r.PropagateFailure()
        else
          var s1 := Skip(r.rest);
          if Head(s1) == ',' then Prepend(ts + [r.value], ParseItems(s1[1..]))
          else if Head(s1) == ']' then Parsed(ts + [r.value], s1[1..])
          else Failed
  {
    hide ParseValue;
    var r := ParseValue(Skip(s));
    if r.Parsed? && Head(Skip(r.rest)) == ',' {
      PrependTwice(ts, r.value, ParseItems(Skip(r.rest)[1..]));
    }
  }

  lemma MemberStep(ms: seq<Member>, s: string)
    ensures
      var r := ParseMember(s);
      Prepend(ms, ParseMembers(s)) ==
        if r.IsFailure() then r.PropagateFailure()
        else
          var s1 := Skip(r.rest);
          if Head(s1) == ',' then Prepend(ms + [r.value], ParseMembers(s1[1..]))
          else if Head(s1) == '}' then Parsed(ms + [r.value], s1[1..])
          else Failed
  {
    hide ParseMember;
    var r := ParseMember(s);
    if r.Parsed? && Head(Skip(r.rest)) == ',' {
      PrependTwice(ms, r.value, ParseMembers(Skip(r.rest)[1..]));
    }
  }

  // ----- the parser -----

  /** A node as `cJSON_New_Item` leaves it, up to its name and its neighbours. */
  ghost predicate Blank(item: Item)
    reads item
  {
    item.child == null && item.valuestring == null && !item.isReference && !item.stringIsConst
  }

  method ReadString(item: Item, mem: Memory, text: string, pos: nat) returns (ok: bool, end: nat)
    requires Blank(item) && pos <= |text| && NulFree(text) && !ParseString(text[pos..]).Incomplete?
    modifies item`kind, item`valuestring, mem`live
    ensures ok <==> ParseString(text[pos..]).Parsed?
    ensures !ok ==> item.valuestring == null && mem.live == old(mem.live)
    ensures ok ==>
      && pos < end <= |text| && text[end..] == ParseString(text[pos..]).rest
      && item.valuestring != null && fresh(item.valuestring) && mem.live == old(mem.live) + {item.valuestring}
      && Holds(item.valuestring, ParseString(text[pos..]).value) && item.kind == StringItem
  {
    if At(text, pos) != '\"' {
      return false, pos;
    }
    assert text[pos..][1..] == text[pos + 1..];
    IncompleteExactly(text[pos + 1..]);
    var len := MeasureLiteral(text, pos + 1);
    var out := mem.NewString(len + 1);
    end := FillLiteral(text, pos + 1, out);
    item.valuestring := out;
    item.kind := StringItem;
    ok := true;
  }

  /** The outcome of reading a value: it is there exactly when the text has one, and spells it. */
  ghost predicate Outcome(r: Parsed<Json>, ok: bool, text: string, pos: nat, end: nat, s: Shape)
    reads Nodes(s)`kind, Nodes(s)`valueint, Nodes(s)`valuedouble, Strings(s)
  {
    && (ok <==> r.Parsed?)
    && (ok ==> pos < end <= |text| && text[end..] == r.rest && Represents(s, r.value))
  }

  method ReadValue(item: Item, mem: Memory, text: string, pos: nat) returns (ok: bool, end: nat, ghost s: Shape)
    requires Blank(item) && pos <= |text| && NulFree(text) && !ParseValue(text[pos..]).Incomplete?
    modifies item`child, item`kind, item`valuestring, item`valueint, item`valuedouble, mem`live
    ensures s.node == item && s.name == item.name && Built(s, false)
    ensures fresh(Gained(s)) && mem.live == old(mem.live) + Gained(s)
    ensures Outcome(ParseValue(text[pos..]), ok, text, pos, end, s)
    decreases |text| - pos, 2
  {
    hide ParseItems, ParseMembers, ParseNumber, Unescape;
    if At(text, pos) == '[' {
      ok, end, s := ReadArray(item, mem, text, pos);
    } else if At(text, pos) == '{' {
      ok, end, s := ReadObject(item, mem, text, pos);
    } else {
      ok, end, s := ReadScalar(item, mem, text, pos);
    }
  }

  /** The values without children, and anything that is not a value. */
  method ReadScalar(item: Item, mem: Memory, text: string, pos: nat) returns (ok: bool, end: nat, ghost s: Shape)
    requires Blank(item) && pos <= |text| && NulFree(text) && !ParseValue(text[pos..]).Incomplete?
    requires At(text, pos) != '[' && At(text, pos) != '{'
    modifies item`kind, item`valuestring, item`valueint, item`valuedouble, mem`live
    ensures s.node == item && s.name == item.name && Built(s, false)
    ensures fresh(Gained(s)) && mem.live == old(mem.live) + Gained(s)
    ensures Outcome(ParseValue(text[pos..]), ok, text, pos, end, s)
  {
    hide ParseItems, ParseMembers, ParseNumber, ParseString, Built;
    NoChildren(false);
    s := Shape(item, false, false, null, item.name, []);
    ok, end := true, pos;
    if "null" <= text[pos..] {
      item.kind := NullItem;
      end := pos + 4;
    } else if "false" <= text[pos..] {
      item.kind := FalseItem;
      end := pos + 5;
    } else if "true" <= text[pos..] {
      item.kind := TrueItem;
      item.valueint := 1;
      end := pos + 4;
    } else if At(text, pos) == '\"' {
      ok, end := ReadString(item, mem, text, pos);
      s := s.(text := item.valuestring);
    } else if At(text, pos) == '-' || IsDigit(At(text, pos)) {
      var d: real;
      d, end := ReadNumber(text, pos);
      item.valuedouble := d;
      item.valueint := CastInt(d);
      item.kind := NumberItem;
    } else {
      ok := false;
    }
    BuiltNode(s, false);
  }

  lemma ArrayCase(s: string)
    requires Head(s) == '['
    ensures ParseValue(s) ==
      var s1 := Skip(s[1..]);
      if Head(s1) == ']' then Parsed(Arr([]), s1[1..])
      else
        var r := ParseItems(s1);
        if r.IsFailure() then r.PropagateFailure() else Parsed(Arr(r.value), r.rest)
  {
    hide ParseItems;
  }

  lemma ObjectCase(s: string)
    requires Head(s) == '{'
    ensures ParseValue(s) ==
      var s1 := Skip(s[1..]);
      if Head(s1) == '}' then Parsed(Obj([]), s1[1..])
      else
        var r := ParseMembers(s1);
        if r.IsFailure() then r.PropagateFailure() else Parsed(Obj(r.value), r.rest)
  {
    hide ParseMembers;
  }

  /** A new last child. */
  method AddChild(item: Item, last: Item?, mem: Memory, ghost kids: seq<Shape>) returns (child: Item)
    requires Chained(item.child, last, kids, false)
    modifies mem`live, item`child, (if last == null then {} else {last})`next
    ensures fresh(child) && Blank(child) && child.name == null && mem.live == old(mem.live) + {child}
    ensures Linked(item.child, Heads(kids) + [child]) && BuiltAll(kids, false)
  {
    hide BuiltAll, Linked, NodesAll;
    NodesAllocated(kids);
    assert forall x | x in Heads(kids) :: allocated(x);
    child := mem.NewItem();
    LinkChild(item, last, child, kids, false);
  }

  lemma NothingRepresented()
    ensures RepresentAll([], []) && RepresentMembers([], [])
  {}

  /** `skip(parse_value(child,skip(value)))` */
  method ReadSkipping(item: Item, mem: Memory, text: string, from: nat) returns (ok: bool, value: nat, ghost k: Shape)
    requires Blank(item)
    requires from <= |text| && NulFree(text) && !ParseValue(Skip(text[from..])).Incomplete?
    modifies item`child, item`kind, item`valuestring, item`valueint, item`valuedouble, mem`live
    ensures k.node == item && k.name == item.name && Built(k, false)
    ensures fresh(Gained(k)) && mem.live == old(mem.live) + Gained(k)
    ensures
      var r := ParseValue(Skip(text[from..]));
      && (ok <==> r.Parsed?)
      && (ok ==> from < value <= |text| && text[value..] == Skip(r.rest) && Represents(k, r.value))
    decreases |text| - from, 3
  {
    hide ParseValue, Built, Represents;
    var at := SkipFrom(text, from);
    ok, value, k := ReadValue(item, mem, text, at);
    if ok {
      ShapeAllocated(k);
      value := SkipFrom(text, value);
    }
  }

  /** One more item, from the white space in front of it to the character behind the white space after it. */
  method ReadItem(item: Item, last: Item?, mem: Memory, text: string, from: nat, ghost kids: seq<Shape>, ghost ts: seq<Json>)
    returns (ok: bool, value: nat, child: Item, ghost k: Shape)
    requires Chained(item.child, last, kids, false) && RepresentAll(kids, ts)
    requires from <= |text| && NulFree(text) && !ParseValue(Skip(text[from..])).Incomplete?
    modifies mem`live, item`child, (if last == null then {} else {last})`next
    ensures Chained(item.child, child, kids + [k], false) && fresh(Cells(k))
    ensures mem.live == old(mem.live) + Cells(k) && CellsAll(kids + [k]) == CellsAll(kids) + Cells(k)
    ensures
      var r := ParseValue(Skip(text[from..]));
      && (ok <==> r.Parsed?)
      && (ok ==> from < value <= |text| && text[value..] == Skip(r.rest) && RepresentAll(kids + [k], ts + [r.value]))
    decreases |text| - from, 4
  {
    hide ParseValue, BuiltAll, Built, Represents, RepresentAll, Linked, Chained;
    NodesAllocated(kids);
    child := AddChild(item, last, mem, kids);
    assert forall x | x in Heads(kids) + [child] :: allocated(x);
    ok, value, k := ReadSkipping(child, mem, text, from);
    ChainGrows(item.child, kids, k, false);
    if ok {
      SnocRepresents(kids, ts, k, ParseValue(Skip(text[from..])).value);
    }
  }

  method ReadArray(item: Item, mem: Memory, text: string, pos: nat) returns (ok: bool, end: nat, ghost s: Shape)
    requires Blank(item) && pos <= |text| && NulFree(text) && !ParseValue(text[pos..]).Incomplete?
    requires At(text, pos) == '['
    modifies item`child, item`kind, mem`live
    ensures s.node == item && s.name == item.name && Built(s, false)
    ensures fresh(Gained(s)) && mem.live == old(mem.live) + Gained(s)
    ensures Outcome(ParseValue(text[pos..]), ok, text, pos, end, s)
    decreases |text| - pos, 1
  {
    hide ParseValue, ParseItems, RepresentAll, Built, BuiltAll, Linked;
    ArrayCase(text[pos..]);
    assert text[pos..][1..] == text[pos + 1..];
    item.kind := ArrayItem;
    var from := SkipFrom(text, pos + 1);
    ghost var kids: seq<Shape> := [];
    if At(text, from) == ']' {
      assert text[from..][1..] == text[from + 1..];
      NoChildren(false);
      NothingRepresented();
      ok, end := true, from + 1;
    } else {
      ok, end, kids := ReadItems(item, mem, text, from);
    }
    s := Shape(item, false, false, null, item.name, kids);
    BuiltNode(s, false);
  }

  /** The loop over the items. */
  method ReadItems(item: Item, mem: Memory, text: string, start: nat) returns (ok: bool, end: nat, ghost kids: seq<Shape>)
    requires item.child == null && start <= |text| && NulFree(text) && !ParseItems(text[start..]).Incomplete?
    modifies item`child, mem`live
    ensures Linked(item.child, Heads(kids)) && BuiltAll(kids, false)
    ensures fresh(CellsAll(kids)) && mem.live == old(mem.live) + CellsAll(kids)
    ensures
      var r := ParseItems(text[start..]);
      && (ok <==> r.Parsed?)
      && (ok ==> start < end <= |text| && text[end..] == r.rest && RepresentAll(kids, r.value))
    decreases |text| - start, 5
  {
    hide ParseValue, ParseItems, RepresentAll, BuiltAll, Linked;
    NoChildren(false);
    NothingRepresented();
    kids := [];
    ghost var r := ParseItems(text[start..]);
    ghost var ts: seq<Json> := [];
    var from := start;
    var last: Item? := null;
    PrependNothing(r);
    while true
      invariant start <= from <= |text|
      invariant Chained(item.child, last, kids, false) && RepresentAll(kids, ts)
      invariant last != null ==> fresh(last)
      invariant fresh(CellsAll(kids)) && mem.live == old(mem.live) + CellsAll(kids)
      invariant Prepend(ts, ParseItems(text[from..])) == r
      decreases |text| - from
    {
      ItemStep(ts, text[from..]);
      ghost var v := ParseValue(Skip(text[from..]));
      ghost var k;
      ok, end, last, k := ReadItem(item, last, mem, text, from, kids, ts);
      kids := kids + [k];
      if !ok {
        return;
      }
      ts := ts + [v.value];
      assert end < |text| ==> text[end..][1..] == text[end + 1..];
      if At(text, end) != ',' {
        ok := At(text, end) == ']';
        end := if ok then end + 1 else end;
        return;
      }
      from := end + 1;
    }
  }

  method ReadObject(item: Item, mem: Memory, text: string, pos: nat) returns (ok: bool, end: nat, ghost s: Shape)
    requires Blank(item) && pos <= |text| && NulFree(text) && !ParseValue(text[pos..]).Incomplete?
    requires At(text, pos) == '{'
    modifies item`child, item`kind, mem`live
    ensures s.node == item && s.name == item.name && Built(s, false)
    ensures fresh(Gained(s)) && mem.live == old(mem.live) + Gained(s)
    ensures Outcome(ParseValue(text[pos..]), ok, text, pos, end, s)
    decreases |text| - pos, 1
  {
    hide ParseValue, ParseMembers, RepresentMembers, Built, BuiltAll, Linked;
    ObjectCase(text[pos..]);
    assert text[pos..][1..] == text[pos + 1..];
    item.kind := ObjectItem;
    var from := SkipFrom(text, pos + 1);
    ghost var kids: seq<Shape> := [];
    if At(text, from) == '}' {
      assert text[from..][1..] == text[from + 1..];
      NoChildren(false);
      NothingRepresented();
      ok, end := true, from + 1;
    } else {
      ok, end, kids := ReadMembers(item, mem, text, from);
    }
    s := Shape(item, false, false, null, item.name, kids);
    BuiltNode(s, false);
  }

  /** The loop over the members. */
  method ReadMembers(item: Item, mem: Memory, text: string, start: nat) returns (ok: bool, end: nat, ghost kids: seq<Shape>)
    requires item.child == null && start <= |text| && NulFree(text) && !ParseMembers(text[start..]).Incomplete?
    modifies item`child, mem`live
    ensures Linked(item.child, Heads(kids)) && BuiltAll(kids, false)
    ensures fresh(CellsAll(kids)) && mem.live == old(mem.live) + CellsAll(kids)
    ensures
      var r := ParseMembers(text[start..]);
      && (ok <==> r.Parsed?)
      && (ok ==> start < end <= |text| && text[end..] == r.rest && RepresentMembers(kids, r.value))
    decreases |text| - start, 5
  {
    hide ParseMember, ParseMembers, RepresentMembers, BuiltAll, Linked;
    NoChildren(false);
    NothingRepresented();
    kids := [];
    ghost var r := ParseMembers(text[start..]);
    ghost var ms: seq<Member> := [];
    var from := start;
    var last: Item? := null;
    PrependNothing(r);
    while true
      invariant start <= from <= |text|
      invariant Chained(item.child, last, kids, false) && RepresentMembers(kids, ms)
      invariant last != null ==> fresh(last)
      invariant fresh(CellsAll(kids)) && mem.live == old(mem.live) + CellsAll(kids)
      invariant Prepend(ms, ParseMembers(text[from..])) == r
      decreases |text| - from
    {
      MemberStep(ms, text[from..]);
      ghost var v := ParseMember(text[from..]);
      ghost var k;
      ok, end, last, k := ReadMember(item, last, mem, text, from, kids, ms);
      kids := kids + [k];
      if !ok {
        return;
      }
      ms := ms + [v.value];
      assert end < |text| ==> text[end..][1..] == text[end + 1..];
      if At(text, end) != ',' {
        ok := At(text, end) == '}';
        end := if ok then end + 1 else end;
        return;
      }
      from := end + 1;
    }
  }

  /** A name, which is read as a string and then moved over, and a value. */
  method ReadPair(child: Item, mem: Memory, text: string, from: nat) returns (ok: bool, value: nat, ghost k: Shape)
    requires Blank(child) && child.name == null
    requires from <= |text| && NulFree(text) && !ParseMember(text[from..]).Incomplete?
    modifies child`child, child`kind, child`valuestring, child`valueint, child`valuedouble, child`name, mem`live
    ensures k.node == child && Built(k, false)
    ensures fresh(Cells(k) - {child}) && child in Cells(k) && mem.live == old(mem.live) + (Cells(k) - {child})
    ensures
      var r := ParseMember(text[from..]);
      && (ok <==> r.Parsed?)
      && (ok ==> from < value <= |text| && text[value..] == Skip(r.rest) && Named(k, r.value.name) && Represents(k, r.value.value))
    decreases |text| - from, 3
  {
    hide ParseValue, ParseString, Represents, Built, Linked, BuiltAll, Skip, HoldsAt;
    k := Shape(child, false, false, null, null, []);
    var at := SkipFrom(text, from);
    ok, value := ReadString(child, mem, text, at);
    if ok {
      child.name, child.valuestring := child.valuestring, null;
      k := k.(name := child.name);
      value := SkipFrom(text, value);
      ok := At(text, value) == ':';
    }
    if ok {
      assert text[value..][1..] == text[value + 1..];
      StringKind(child.name);
      ok, value, k := ReadSkipping(child, mem, text, value + 1);
    } else {
      NoChildren(false);
      BuiltNode(k, false);
    }
  }

  method ReadMember(item: Item, last: Item?, mem: Memory, text: string, from: nat, ghost kids: seq<Shape>, ghost ms: seq<Member>)
    returns (ok: bool, value: nat, child: Item, ghost k: Shape)
    requires Chained(item.child, last, kids, false) && RepresentMembers(kids, ms)
    requires from <= |text| && NulFree(text) && !ParseMember(text[from..]).Incomplete?
    modifies mem`live, item`child, (if last == null then {} else {last})`next
    ensures Chained(item.child, child, kids + [k], false) && fresh(Cells(k))
    ensures mem.live == old(mem.live) + Cells(k) && CellsAll(kids + [k]) == CellsAll(kids) + Cells(k)
    ensures
      var r := ParseMember(text[from..]);
      && (ok <==> r.Parsed?)
      && (ok ==> from < value <= |text| && text[value..] == Skip(r.rest) && RepresentMembers(kids + [k], ms + [r.value]))
    decreases |text| - from, 4
  {
    hide ParseMember, BuiltAll, Built, Represents, RepresentMembers, Linked, Chained, Named, Cells;
    NodesAllocated(kids);
    child := AddChild(item, last, mem, kids);
    assert forall x | x in Heads(kids) + [child] :: allocated(x);
    ok, value, k := ReadPair(child, mem, text, from);
    assert Cells(k) == (Cells(k) - {child}) + {child};
    ChainGrows(item.child, kids, k, false);
    if ok {
      SnocMembers(kids, ms, k, ParseMember(text[from..]).value);
    }
  }

  // ----- whole texts -----

  /** A new root filled from the text, which is to be kept or not. */
  method ReadRoot(mem: Memory, text: string, terminated: bool) returns (ok: bool, root: Item, end: nat, ghost s: Shape)
    requires NulFree(text) && !ParseValue(Skip(text)).Incomplete?
    modifies mem`live
    ensures s.node == root && Built(s, false) && root.next == null && root.prev == null
    ensures fresh(Cells(s)) && mem.live == old(mem.live) + Cells(s)
    ensures
      var r := ParseValue(Skip(text));
      && (ok <==> r.Parsed? && (terminated ==> Skip(r.rest) == ""))
      && (ok ==> end <= |text| && text[end..] == (if terminated then "" else r.rest) && Represents(s, r.value))
  {
    hide ParseValue, Built, Represents, Cells, Gained, Nodes, NodesAll, Strings, StringsAll, Skip;
    assert text[0..] == text;
    root := mem.NewItem();
    var start := SkipFrom(text, 0);
    ok, end, s := ReadValue(root, mem, text, start);
    ShapeAllocated(s);
    CellsGained(s);
    if ok && terminated {
      end := SkipFrom(text, end);
      ok := At(text, end) == NUL;
    }
  }

  /** `cJSON_ParseWithOpts`: the tree of the text, or nothing at all left allocated. */
  method ParseWithOpts(mem: Memory, text: string, terminated: bool) returns (c: Item?, end: nat, ghost s: Shape)
    requires NulFree(text) && !ParseValue(Skip(text)).Incomplete?
    modifies mem`live
    ensures
      var r := ParseValue(Skip(text));
      c != null <==> r.Parsed? && (terminated ==> Skip(r.rest) == "")
    ensures c == null ==> mem.live == old(mem.live)
    ensures c != null ==>
      && s.node == c && Built(s, false) && Represents(s, ParseValue(Skip(text)).value)
      && end <= |text|
      && text[end..] == (if terminated then "" else ParseValue(Skip(text)).rest)
      && c.next == null && c.prev == null
      && fresh(Cells(s)) && mem.live == old(mem.live) + Cells(s)
    ensures c == null ==> forall t, rest :: !JsonAccept.Accepts(text, terminated, t, rest)
    ensures c != null ==> exists t, rest ::
      JsonAccept.Accepts(text, terminated, t, rest) && Represents(s, t) && text[end..] == (if terminated then "" else rest)
  {
    hide ParseValue, Built, Represents, Cells, Skip, JsonAccept.Accepts;
    JsonAccept.AcceptsExactly(text, terminated);
    var ok;
    ok, c, end, s := ReadRoot(mem, text, terminated);
    if !ok {
      DeleteRoot(c, mem, s, false);
      c := null;
    }
  }
}
