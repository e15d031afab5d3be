/** `cJSON_Duplicate`: a deep copy in wholly fresh memory, and what releasing it gives back. */
module JsonDuplicate {

  import opened CString
  import opened JsonForest
  import opened JsonHeap

  /** Both absent, or the same C string. */
  ghost predicate SameText(a: array?<char>, b: array?<char>)
    reads Cell(a), Cell(b)
  {
    (a == null && b == null) || (a != null && b != null && exists x :: Holds(a, x) && Holds(b, x))
  }

  ghost predicate Terminated(a: array?<char>)
    reads Cell(a)
  {
    a != null ==> exists x :: Holds(a, x)
  }

  function Texts(s: Shape): set<object> {
    Cell(s.name) + Strings(s)
  }

  /** Every string of the picture is one. */
  ghost predicate AllTerminated(s: Shape)
    reads Texts(s)
    decreases s, 0
  {
    Terminated(s.text) && Terminated(s.name) && AllTerminatedIn(s.kids)
  }

  ghost predicate AllTerminatedIn(ss: seq<Shape>)
    reads StringsAll(ss)
    decreases ss, 0
  {
    ss != [] ==> AllTerminated(ss[0]) && AllTerminatedIn(ss[1..])
  }

  /** `d` copies the node of `s`: its values and strings, and the flag of its name but not of a reference. */
  ghost predicate CopiesNode(s: Shape, d: Shape)
    reads s.node`kind, s.node`valueint, s.node`valuedouble, d.node`kind, d.node`valueint, d.node`valuedouble
    reads Cell(s.text), Cell(s.name), Cell(d.text), Cell(d.name)
  {
    && d.node.kind == s.node.kind && d.node.valueint == s.node.valueint && d.node.valuedouble == s.node.valuedouble
    && d.isConst == s.isConst && SameText(s.text, d.text) && SameText(s.name, d.name)
  }

  ghost predicate Copies(s: Shape, d: Shape)
    reads Nodes(s)`kind, Nodes(s)`valueint, Nodes(s)`valuedouble, Nodes(d)`kind, Nodes(d)`valueint, Nodes(d)`valuedouble
    reads Texts(s), Texts(d)
    decreases s, 0
  {
    CopiesNode(s, d) && CopiesAll(s.kids, d.kids)
  }

  ghost predicate CopiesAll(ss: seq<Shape>, ds: seq<Shape>)
    reads NodesAll(ss)`kind, NodesAll(ss)`valueint, NodesAll(ss)`valuedouble
    reads NodesAll(ds)`kind, NodesAll(ds)`valueint, NodesAll(ds)`valuedouble
    reads StringsAll(ss), StringsAll(ds)
    decreases ss, 0
  {
    |ss| == |ds| && (ss != [] ==> Copies(ss[0], ds[0]) && CopiesAll(ss[1..], ds[1..]))
  }

  lemma {:induction false} SnocCopies(ss: seq<Shape>, ds: seq<Shape>, s: Shape, d: Shape)
    requires CopiesAll(ss, ds) && Copies(s, d)
    ensures CopiesAll(ss + [s], ds + [d])
  {
    if ss == [] {
      assert ss + [s] == [s] && ds + [d] == [d];
    } else {
      SnocCopies(ss[1..], ds[1..], s, d);
      assert (ss + [s])[1..] == ss[1..] + [s] && (ds + [d])[1..] == ds[1..] + [d];
    }
  }

  lemma RootNotBelow(s: Shape, consts: bool)
    requires Built(s, consts)
    ensures s.node !in NodesAll(s.kids)
    ensures forall o: Item | o in Nodes(s) :: o in Cells(s)
    ensures forall o: Item | o in NodesAll(s.kids) :: o in Cells(s)
  {
    NodesAreCells(s.kids);
  }

  method StrDup(mem: Memory, str: array<char>) returns (copy: array<char>)
    requires Terminated(str)
    modifies mem`live
    ensures fresh(copy) && mem.live == old(mem.live) + {copy} && SameText(str, copy)
  {
    ghost var x :| Holds(str, x);
    var len := StrLen(str, 0, x);
    copy := mem.NewString(len + 1);
    forall i | 0 <= i <= len {
      copy[i] := str[i];
    }
    assert Holds(copy, x);
  }

  method StrDupUnlessNull(mem: Memory, str: array?<char>) returns (copy: array?<char>)
    requires Terminated(str)
    modifies mem`live
    ensures fresh(Cell(copy)) && mem.live == old(mem.live) + Cell(copy) && SameText(str, copy)
  {
    copy := null;
    if str != null {
      copy := StrDup(mem, str);
    }
  }

  lemma TextsAllocated(s: Shape)
    ensures forall o | o in Nodes(s) :: allocated(o)
    ensures forall o | o in NodesAll(s.kids) :: allocated(o)
    ensures forall o | o in Texts(s) :: allocated(o) && !(o is Item) && !(o is Memory)
    ensures forall o | o in StringsAll(s.kids) :: allocated(o) && !(o is Item) && !(o is Memory)
  {
    NodesAllocated(s.kids);
    ShapeAllocated(s);
  }

  lemma CellKinds(s: Shape)
    ensures allocated(s.node)
    ensures forall o | o in Cell(s.text) :: allocated(o) && !(o is Item) && !(o is Memory)
    ensures forall o | o in Cell(s.name) :: allocated(o) && !(o is Item) && !(o is Memory)
  {
    StringKind(s.text);
    StringKind(s.name);
  }

  lemma CopiesKids(s: Shape, d: Shape, kids: seq<Shape>)
    requires CopiesNode(s, d) && CopiesAll(s.kids, kids)
    ensures Copies(s, d.(kids := kids))
  {}

  /** The strings of a node. */
  method DuplicateStrings(item: Item, newitem: Item, mem: Memory)
    requires Terminated(item.valuestring) && Terminated(item.name)
    requires item != newitem && newitem.valuestring == null && newitem.name == null
    modifies mem`live, newitem`valuestring, newitem`name
    ensures SameText(item.valuestring, newitem.valuestring) && SameText(item.name, newitem.name)
    ensures newitem.valuestring == null || newitem.valuestring != newitem.name
    ensures fresh(Cell(newitem.valuestring)) && fresh(Cell(newitem.name))
    ensures mem.live == old(mem.live) + (Cell(newitem.valuestring) + Cell(newitem.name))
  {
    hide SameText, Terminated;
    StringKind(item.valuestring);
    StringKind(item.name);
    var text := StrDupUnlessNull(mem, item.valuestring);
    assert Terminated(item.name);
    newitem.valuestring := text;
    StringKind(text);
    assert SameText(item.valuestring, text) && Terminated(item.name);
    var name := StrDupUnlessNull(mem, item.name);
    newitem.name := name;
    StringKind(name);
    assert SameText(item.valuestring, text) && SameText(item.name, name);
  }

  /** The node itself, without children. */
  method DuplicateNode(item: Item, mem: Memory, ghost s: Shape) returns (newitem: Item, ghost d: Shape)
    requires item == s.node && s.isConst == item.stringIsConst && s.text == item.valuestring && s.name == item.name
    requires Terminated(s.text) && Terminated(s.name)
    modifies mem`live
    ensures d == Shape(newitem, false, s.isConst, newitem.valuestring, newitem.name, []) && CopiesNode(s, d)
    ensures newitem.next == null && newitem.prev == null && newitem.child == null
    ensures !newitem.isReference && newitem.stringIsConst == s.isConst
    ensures d.text == null || d.text != d.name
    ensures fresh(newitem) && fresh(Cells(d)) && mem.live == old(mem.live) + Cells(d)
  {
    hide SameText, Terminated, CellsAll, NoRefs;
    CellKinds(s);
    NoChildren(true);
    newitem := mem.NewItem();
    newitem.kind, newitem.stringIsConst := item.kind, item.stringIsConst;
    newitem.valueint, newitem.valuedouble := item.valueint, item.valuedouble;
    assert Terminated(s.text) && Terminated(s.name);
    DuplicateStrings(item, newitem, mem);
    d := Shape(newitem, false, s.isConst, newitem.valuestring, newitem.name, []);
    assert Cells(d) == {newitem as object} + (Cell(d.text) + Cell(d.name));
  }

  /** `cJSON_Duplicate` of a node that has the picture `s`, references included. */
  method Duplicate(item: Item, recurse: bool, mem: Memory, ghost s: Shape) returns (newitem: Item, ghost d: Shape)
    requires item == s.node && Matches(s, true) && AllTerminated(s)
    modifies mem`live
    ensures d.node == newitem && Built(d, true) && newitem.next == null && newitem.prev == null
    ensures fresh(Cells(d)) && mem.live == old(mem.live) + Cells(d)
    ensures if recurse then Copies(s, d) else CopiesNode(s, d) && d.kids == []
    decreases s, 1
  {
    hide Linked, MatchAll, Terminated, CopiesNode, CopiesAll, BuiltAll, Built;
    hide AllTerminatedIn, Copies, Texts, Strings, StringsAll, Nodes, NodesAll, Below, SameText;
    TextsAllocated(s);
    CellKinds(s);
    newitem, d := DuplicateNode(item, mem, s);
    CellKinds(d);
    assert CopiesNode(s, d);
    assert Matches(s, true) && AllTerminated(s);
    NoChildren(true);
    if recurse {
      ghost var kids := DuplicateKids(item, newitem, mem, s);
      assert CopiesNode(s, d);
      CopiesKids(s, d, kids);
      d := d.(kids := kids);
    }
    BuiltNode(d, true);
  }

  lemma NoCopies()
    ensures CopiesAll([], [])
  {}

  lemma {:induction false} MatchAt(ss: seq<Shape>, i: nat)
    requires MatchAll(ss, true) && AllTerminatedIn(ss) && i < |ss|
    ensures Matches(ss[i], true) && AllTerminated(ss[i])
  {
    if i > 0 {
      MatchAt(ss[1..], i - 1);
    }
  }

  function Kid(s: Shape, i: nat): Item? {
    if i < |s.kids| then s.kids[i].node else null
  }

  /** What a picture says of the first child, and of any other. */
  lemma FirstKid(s: Shape)
    requires Matches(s, true)
    ensures s.node.child == Kid(s, 0)
  {}

  lemma KidAt(s: Shape, i: nat)
    requires Matches(s, true) && AllTerminated(s) && i < |s.kids|
    ensures Matches(s.kids[i], true) && AllTerminated(s.kids[i]) && s.kids[i].node.next == Kid(s, i + 1)
  {
    MatchAt(s.kids, i);
    assert Heads(s.kids)[i].next == After(Heads(s.kids), i);
  }

  lemma ChainOf(first: Item?, last: Item?, kids: seq<Shape>, consts: bool)
    ensures Chained(first, last, kids, consts) <==>
      && Linked(first, Heads(kids)) && BuiltAll(kids, consts)
      && last == (if kids == [] then null else kids[|kids| - 1].node)
  {}

  /** The loop over the children. */
  method DuplicateKids(item: Item, newitem: Item, mem: Memory, ghost s: Shape) returns (ghost kids: seq<Shape>)
    requires item == s.node && Matches(s, true) && AllTerminated(s)
    requires newitem.child == null && newitem !in Nodes(s)
    modifies mem`live, newitem`child
    ensures Linked(newitem.child, Heads(kids)) && BuiltAll(kids, true) && CopiesAll(s.kids, kids)
    ensures fresh(CellsAll(kids)) && mem.live == old(mem.live) + CellsAll(kids)
    decreases s, 0
  {
    hide Matches, AllTerminated, BuiltAll, CopiesAll, Linked, MatchAll, AllTerminatedIn, Chained;
    hide Nodes, NodesAll, Texts, StringsAll, Cells, CellsAll, Below, Heads;
    kids := [];
    NoChildren(true);
    ChainOf(null, null, kids, true);
    TextsAllocated(s);
    var nptr: Item? := null;
    var cptr := item.child;
    ghost var i := 0;
    FirstKid(s);
    assert s.kids[..0] == [];
    NoCopies();
    while cptr != null
      invariant i <= |s.kids| && cptr == Kid(s, i)
      invariant Matches(s, true) && AllTerminated(s)
      invariant Chained(newitem.child, nptr, kids, true) && CopiesAll(s.kids[..i], kids)
      invariant fresh(CellsAll(kids)) && mem.live == old(mem.live) + CellsAll(kids)
      invariant nptr == null || fresh(nptr)
      decreases |s.kids| - i
    {
      KidAt(s, i);
      ghost var k;
      nptr, k := DuplicateChild(cptr, newitem, nptr, mem, s.kids[i], s.kids[..i], kids);
      assert Matches(s, true) && AllTerminated(s);
      KidAt(s, i);
      assert s.kids[..i] + [s.kids[i]] == s.kids[..i + 1];
      kids := kids + [k];
      cptr := cptr.next;
      i := i + 1;
    }
    ChainOf(newitem.child, nptr, kids, true);
    assert s.kids[..i] == s.kids;
  }

  /** One child, linked behind the copies of those before it. */
  method DuplicateChild(cptr: Item, newitem: Item, nptr: Item?, mem: Memory,
                        ghost s: Shape, ghost ss: seq<Shape>, ghost kids: seq<Shape>)
    returns (newchild: Item, ghost k: Shape)
    requires cptr == s.node && Matches(s, true) && AllTerminated(s)
    requires Chained(newitem.child, nptr, kids, true) && CopiesAll(ss, kids)
    modifies mem`live, newitem`child, (if nptr == null then {} else {nptr})`next
    ensures Chained(newitem.child, newchild, kids + [k], true) && CopiesAll(ss + [s], kids + [k])
    ensures fresh(newchild) && fresh(Cells(k))
    ensures mem.live == old(mem.live) + Cells(k) && CellsAll(kids + [k]) == CellsAll(kids) + Cells(k)
    decreases s, 2
  {
    hide Matches, AllTerminated, Chained, BuiltAll, Built, CopiesAll, Copies, Linked;
    hide Texts, Strings, StringsAll, NodesAll, Below, CellsAll;
    NodesAllocated(kids);
    NodesAllocated(ss);
    newchild, k := Duplicate(cptr, true, mem, s);
    assert Chained(newitem.child, nptr, kids, true) && CopiesAll(ss, kids);
    TextsAllocated(s);
    TextsAllocated(k);
    RootNotBelow(k, true);
    assert Copies(s, k);
    LinkChild(newitem, nptr, newchild, kids, true);
    assert CopiesAll(ss, kids);
    assert Copies(s, k);
    assert Built(k, true);
    SnocCopies(ss, kids, s, k);
    ChainGrows(newitem.child, kids, k, true);
  }

  // ----- duplicating and releasing -----

  lemma {:induction false} SameConstNames(s: Shape, d: Shape)
    requires Copies(s, d)
    ensures ConstNames(s) == {} <==> ConstNames(d) == {}
    decreases s, 0
  {
    SameConstNamesAll(s.kids, d.kids);
  }

  lemma {:induction false} SameConstNamesAll(ss: seq<Shape>, ds: seq<Shape>)
    requires CopiesAll(ss, ds)
    ensures ConstNamesAll(ss) == {} <==> ConstNamesAll(ds) == {}
    decreases ss, 0
  {
    if ss != [] {
      SameConstNames(ss[0], ds[0]);
      SameConstNamesAll(ss[1..], ds[1..]);
    }
  }

  lemma ConstNamesAreCells(d: Shape)
    requires Built(d, true)
    ensures ConstNames(d) <= Cells(d)
  {
    assert [d][0] == d && [d][1..] == [];
    OwnedCells([d], true);
  }

  /** Deleting a deep copy gives back everything but the copies of constant names, which carry the flag of
      the original although they were allocated: memory is restored exactly if there are none. */
  method DuplicateAndDelete(item: Item, mem: Memory, ghost s: Shape)
    requires item == s.node && Matches(s, true) && AllTerminated(s)
    modifies mem`live
    ensures old(mem.live) <= mem.live
    ensures mem.live == old(mem.live) <==> ConstNames(s) == {}
  {
    hide Matches, AllTerminated, Built, Copies;
    var copy;
    ghost var d;
    copy, d := Duplicate(item, true, mem, s);
    SameConstNames(s, d);
    ConstNamesAreCells(d);
    DeleteRoot(copy, mem, d, true);
  }
}
