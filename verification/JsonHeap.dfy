/** The nodes of a cJSON tree in memory, what they own, and their release. */
module JsonHeap {


  datatype Kind = FalseItem | TrueItem | NullItem | NumberItem | StringItem | ArrayItem | ObjectItem

  /** `struct cJSON`; the two flag bits of its type are fields of their own. */
  class Item {
    var next: Item?
    var prev: Item?
    var child: Item?
    var kind: Kind
    var isReference: bool
    var stringIsConst: bool
    var valuestring: array?<char>
    var valueint: int
    var valuedouble: real
    var name: array?<char>

    /** A zeroed node. */
    constructor ()
      ensures next == null && prev == null && child == null
      ensures kind == FalseItem && !isReference && !stringIsConst
      ensures valuestring == null && valueint == 0 && valuedouble == 0.0 && name == null
    {
      next, prev, child := null, null, null;
      kind, isReference, stringIsConst := FalseItem, false, false;
      valuestring, valueint, valuedouble, name := null, 0, 0.0, null;
    }
  }

  /** The allocator: which nodes and strings are allocated and not yet freed. */
  class Memory {
    ghost var live: set<object>

    method NewItem() returns (item: Item)
      modifies this`live
      ensures fresh(item) && live == old(live) + {item}
      ensures item.next == null && item.prev == null && item.child == null
      ensures item.kind == FalseItem && !item.isReference && !item.stringIsConst
      ensures item.valuestring == null && item.name == null
    {
      item := new Item();
      live := live + {item};
    }

    method NewString(size: nat) returns (s: array<char>)
      modifies this`live
      ensures fresh(s) && s.Length == size && live == old(live) + {s}
    {
      s := new char[size];
      live := live + {s};
    }

    /** Only what is allocated may be freed, so nothing is ever freed twice. */
    method Free(o: object)
      requires o in live
      modifies this`live
      ensures live == old(live) - {o}
    {
      live := live - {o};
    }
  }

  /** A picture of a node: its flags, its strings and its children as they are linked. */
  datatype Shape = Shape(
    node: Item, isRef: bool, isConst: bool, text: array?<char>, name: array?<char>, kids: seq<Shape>)

  function Heads(ss: seq<Shape>): (items: seq<Item>)
    ensures |items| == |ss| && forall i | 0 <= i < |ss| :: items[i] == ss[i].node
  {
    seq(|ss|, i requires 0 <= i < |ss| => ss[i].node)
  }

  function Nodes(s: Shape): set<Item>
    decreases s, 0
  {
    {s.node} + NodesAll(s.kids)
  }

  function NodesAll(ss: seq<Shape>): (r: set<Item>)
    ensures forall i | 0 <= i < |ss| :: Nodes(ss[i]) <= r && ss[i].node in r
    decreases ss, 0
  {
    if ss == [] then {} else Nodes(ss[0]) + NodesAll(ss[1..])
  }

  /** The nodes of the shapes without the first node of each. */
  function Below(ss: seq<Shape>): (r: set<Item>)
    ensures r <= NodesAll(ss)
  {
    if ss == [] then {} else NodesAll(ss[0].kids) + Below(ss[1..])
  }

  function Strings(s: Shape): set<object>
    decreases s, 0
  {
    Cell(s.text) + StringsAll(s.kids)
  }

  function StringsAll(ss: seq<Shape>): set<object>
    decreases ss, 0
  {
    if ss == [] then {} else Cell(ss[0].name) + Strings(ss[0]) + StringsAll(ss[1..])
  }

  function After(items: seq<Item>, i: nat): Item? {
    if i + 1 < |items| then items[i + 1] else null
  }

  function Before(items: seq<Item>, i: nat): Item? {
    if 0 < i <= |items| then items[i - 1] else null
  }

  /** A doubly linked list of nodes, from its first one on. */
  ghost predicate Linked(first: Item?, items: seq<Item>)
    reads (set x | x in items)`next, (set x | x in items)`prev
  {
    && first == Before(items, 1)
    && (forall i | 0 <= i < |items| :: items[i].next == After(items, i))
    && (forall i | 0 <= i < |items| :: items[i].prev == Before(items, i))
    && (forall i, j | 0 <= i < j < |items| :: items[i] != items[j])
  }

  /** The picture is true of the heap; what lies behind a reference counts only when `deep`. The links
      of `s` itself to its neighbours play no part. */
  ghost predicate Matches(s: Shape, deep: bool)
    reads Nodes(s)`child, Nodes(s)`isReference, Nodes(s)`stringIsConst, Nodes(s)`valuestring, Nodes(s)`name
    reads NodesAll(s.kids)`next, NodesAll(s.kids)`prev
    decreases s, 0
  {
    && s.isRef == s.node.isReference && s.isConst == s.node.stringIsConst
    && s.text == s.node.valuestring && s.name == s.node.name
    && (deep || !s.isRef ==> Linked(s.node.child, Heads(s.kids)) && MatchAll(s.kids, deep))
  }

  ghost predicate MatchAll(ss: seq<Shape>, deep: bool)
    reads NodesAll(ss)`child, NodesAll(ss)`isReference, NodesAll(ss)`stringIsConst, NodesAll(ss)`valuestring, NodesAll(ss)`name
    reads Below(ss)`next, Below(ss)`prev
    decreases ss, 0
  {
    ss != [] ==> Matches(ss[0], deep) && MatchAll(ss[1..], deep)
  }

  function Cell(s: array?<char>): set<object> {
    if s == null then {} else {s}
  }

  /** What belongs to a node: everything reachable, short of constant names and of what a reference shares. */
  function Owned(s: Shape): set<object>
    decreases s, 0
  {
    {s.node} + (if s.isConst then {} else Cell(s.name)) + (if s.isRef then {} else Cell(s.text) + OwnedAll(s.kids))
  }

  function OwnedAll(ss: seq<Shape>): set<object>
    decreases ss, 0
  {
    if ss == [] then {} else Owned(ss[0]) + OwnedAll(ss[1..])
  }

  /** No cell is owned twice. */
  predicate Separate(s: Shape)
    decreases s, 0
  {
    && (s.text == null || s.isRef || s.isConst || s.text != s.name)
    && (!s.isRef ==>
         && SeparateAll(s.kids)
         && OwnedAll(s.kids) !! {s.node as object} + (if s.isConst then {} else Cell(s.name)) + Cell(s.text))
  }

  predicate SeparateAll(ss: seq<Shape>)
    decreases ss, 0
  {
    ss != [] ==> Separate(ss[0]) && SeparateAll(ss[1..]) && Owned(ss[0]) !! OwnedAll(ss[1..])
  }

  /** Every cell of a picture without references, owned or not. */
  function Cells(s: Shape): set<object>
    decreases s, 0
  {
    {s.node} + Cell(s.name) + Cell(s.text) + CellsAll(s.kids)
  }

  function CellsAll(ss: seq<Shape>): set<object>
    decreases ss, 0
  {
    if ss == [] then {} else Cells(ss[0]) + CellsAll(ss[1..])
  }

  /** No cell occurs twice. */
  predicate Apart(s: Shape)
    decreases s, 0
  {
    && (s.text == null || s.text != s.name) && ApartAll(s.kids)
    && CellsAll(s.kids) !! {s.node as object} + Cell(s.name) + Cell(s.text)
  }

  predicate ApartAll(ss: seq<Shape>)
    decreases ss, 0
  {
    ss != [] ==> Apart(ss[0]) && ApartAll(ss[1..]) && Cells(ss[0]) !! CellsAll(ss[1..])
  }

  /** The names that `cJSON_Delete` takes for constants. */
  function ConstNames(s: Shape): set<object>
    decreases s, 0
  {
    (if s.isConst then Cell(s.name) else {}) + ConstNamesAll(s.kids)
  }

  function ConstNamesAll(ss: seq<Shape>): set<object>
    decreases ss, 0
  {
    if ss == [] then {} else ConstNames(ss[0]) + ConstNamesAll(ss[1..])
  }

  // ----- lists of shapes -----

  lemma {:induction false} SnocShape(ss: seq<Shape>, s: Shape)
    ensures CellsAll(ss + [s]) == CellsAll(ss) + Cells(s)
    ensures ApartAll(ss + [s]) <==> ApartAll(ss) && Apart(s) && CellsAll(ss) !! Cells(s)
  {
    if ss == [] {
      assert ss + [s] == [s];
    } else {
      SnocShape(ss[1..], s);
      assert (ss + [s])[1..] == ss[1..] + [s];
    }
  }

  lemma {:induction false} SnocMatch(ss: seq<Shape>, s: Shape, deep: bool)
    ensures MatchAll(ss + [s], deep) <==> MatchAll(ss, deep) && Matches(s, deep)
  {
    if ss == [] {
      assert ss + [s] == [s];
    } else {
      SnocMatch(ss[1..], s, deep);
      assert (ss + [s])[1..] == ss[1..] + [s];
    }
  }

  /** A picture of everything is a picture of what is owned. */
  lemma {:induction false} DeepMatches(s: Shape)
    requires Matches(s, true)
    ensures Matches(s, false)
    decreases s, 0
  {
    DeepMatchAll(s.kids);
  }

  lemma {:induction false} DeepMatchAll(ss: seq<Shape>)
    requires MatchAll(ss, true)
    ensures MatchAll(ss, false)
    decreases ss, 0
  {
    if ss != [] {
      DeepMatches(ss[0]);
      DeepMatchAll(ss[1..]);
    }
  }

  /** `suffix_object`: links a node behind the last one of a list. */
  method SuffixObject(prev: Item, item: Item, ghost first: Item?, ghost items: seq<Item>)
    requires Linked(first, items) && items != [] && prev == items[|items| - 1]
    requires item !in items && item.next == null
    modifies prev`next, item`prev
    ensures Linked(first, items + [item])
  {
    ghost var all := items + [item];
    assert forall i | 0 <= i < |items| :: items[i] != item;
    assert forall i | 0 <= i < |items| :: Before(all, i) == Before(items, i);
    assert forall i | 0 <= i < |items| - 1 :: After(all, i) == After(items, i);
    prev.next := item;
    item.prev := prev;
  }

  // ----- release -----

  lemma StringKind(s: array?<char>)
    ensures forall o | o in Cell(s) :: !(o is Item) && !(o is Memory)
  {
    if s != null {
      var o: object := s;
      assert o is array<char>;
    }
  }

  /** What a shape mentions is allocated, and its strings are neither nodes nor the allocator. */
  lemma {:induction false} NodesAllocated(ss: seq<Shape>)
    ensures forall o | o in NodesAll(ss) :: allocated(o)
    ensures forall o | o in Below(ss) :: allocated(o)
    ensures forall o | o in CellsAll(ss) :: allocated(o)
    ensures forall o | o in StringsAll(ss) :: allocated(o) && !(o is Item) && !(o is Memory)
    decreases ss, 0
  {
    if ss != [] {
      StringKind(ss[0].name);
      StringKind(ss[0].text);
      NodesAllocated(ss[0].kids);
      NodesAllocated(ss[1..]);
      var s := ss[0];
      assert Nodes(s) == {s.node} + NodesAll(s.kids);
      assert Cells(s) == {s.node as object} + Cell(s.name) + Cell(s.text) + CellsAll(s.kids);
      assert Strings(s) == Cell(s.text) + StringsAll(s.kids);
    }
  }

  /** The `next` links alone, from `first` to the end of the list. */
  ghost predicate NextLinked(first: Item?, ss: seq<Shape>)
    reads NodesAll(ss)`next
  {
    if ss == [] then first == null else first == ss[0].node && NextLinked(ss[0].node.next, ss[1..])
  }

  lemma {:induction false} LinkedNext(items: seq<Item>, ss: seq<Shape>, i: nat)
    requires items == Heads(ss) && i <= |ss|
    requires forall k | i <= k < |items| :: items[k].next == After(items, k)
    ensures NextLinked(if i < |ss| then items[i] else null, ss[i..])
    decreases |ss| - i
  {
    if i < |ss| {
      assert items[i].next == After(items, i);
      LinkedNext(items, ss, i + 1);
      assert ss[i..][1..] == ss[i + 1..];
    }
  }

  lemma LinkedHeads(first: Item?, ss: seq<Shape>)
    requires Linked(first, Heads(ss))
    ensures NextLinked(first, ss)
  {
    LinkedNext(Heads(ss), ss, 0);
    assert ss[0..] == ss;
  }

  /** `cJSON_Delete`: frees a node with what it owns, and all nodes that follow it. */
  method Delete(first: Item?, mem: Memory, ghost ss: seq<Shape>)
    requires NextLinked(first, ss) && MatchAll(ss, false)
    requires SeparateAll(ss) && OwnedAll(ss) <= mem.live
    modifies mem`live
    ensures mem.live == old(mem.live) - OwnedAll(ss)
    decreases ss, 1
  {
    hide Matches, Separate, Owned;
    var c := first;
    ghost var left := ss;
    ghost var freed: set<object> := {};
    while c != null
      invariant NextLinked(c, left) && MatchAll(left, false) && SeparateAll(left)
      invariant freed + OwnedAll(left) == OwnedAll(ss) && freed !! OwnedAll(left)
      invariant mem.live == old(mem.live) - freed && OwnedAll(left) <= mem.live
      invariant |left| <= |ss| && left == ss[|ss| - |left|..]
      decreases |left|
    {
      var next := c.next;
      NodesAllocated(left[1..]);
      DeleteOne(c, mem, left[0]);
      freed := freed + Owned(left[0]);
      c, left := next, left[1..];
    }
  }

  /** One turn of the loop: a node, its children and its strings. */
  method DeleteOne(c: Item, mem: Memory, ghost s: Shape)
    requires c == s.node && Matches(s, false) && Separate(s) && Owned(s) <= mem.live
    modifies mem`live
    ensures mem.live == old(mem.live) - Owned(s)
    decreases s, 0
  {
    hide MatchAll, SeparateAll;
    if !c.isReference && c.child != null {
      LinkedHeads(c.child, s.kids);
      Delete(c.child, mem, s.kids);
    }
    if !c.isReference && c.valuestring != null {
      mem.Free(c.valuestring);
    }
    if !c.stringIsConst && c.name != null {
      mem.Free(c.name);
    }
    mem.Free(c);
  }
}
