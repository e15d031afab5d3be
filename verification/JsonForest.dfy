/** Trees that are put together child by child: what keeps them well-formed, and their release. */
module JsonForest {

  import opened JsonHeap

  /** No node is a reference, and none has a constant name unless `consts`. */
  predicate NoRefs(s: Shape, consts: bool)
    decreases s, 0
  {
    !s.isRef && (s.isConst ==> consts) && NoRefsAll(s.kids, consts)
  }

  predicate NoRefsAll(ss: seq<Shape>, consts: bool)
    decreases ss, 0
  {
    ss != [] ==> NoRefs(ss[0], consts) && NoRefsAll(ss[1..], consts)
  }

  /** The picture is true, complete, and without sharing. */
  ghost predicate Built(s: Shape, consts: bool)
    reads Nodes(s)`child, Nodes(s)`isReference, Nodes(s)`stringIsConst, Nodes(s)`valuestring, Nodes(s)`name
    reads NodesAll(s.kids)`next, NodesAll(s.kids)`prev
  {
    Matches(s, true) && NoRefs(s, consts) && Apart(s)
  }

  ghost predicate BuiltAll(ss: seq<Shape>, consts: bool)
    reads NodesAll(ss)`child, NodesAll(ss)`isReference, NodesAll(ss)`stringIsConst, NodesAll(ss)`valuestring, NodesAll(ss)`name
    reads Below(ss)`next, Below(ss)`prev
  {
    MatchAll(ss, true) && NoRefsAll(ss, consts) && ApartAll(ss)
  }

  lemma {:induction false} SnocNoRefs(ss: seq<Shape>, s: Shape, consts: bool)
    ensures NoRefsAll(ss + [s], consts) <==> NoRefsAll(ss, consts) && NoRefs(s, consts)
  {
    if ss == [] {
      assert ss + [s] == [s];
    } else {
      SnocNoRefs(ss[1..], s, consts);
      assert (ss + [s])[1..] == ss[1..] + [s];
    }
  }

  lemma SnocBuilt(ss: seq<Shape>, s: Shape, consts: bool)
    requires BuiltAll(ss, consts) && Built(s, consts) && CellsAll(ss) !! Cells(s)
    ensures BuiltAll(ss + [s], consts)
    ensures CellsAll(ss + [s]) == CellsAll(ss) + Cells(s)
    ensures Heads(ss + [s]) == Heads(ss) + [s.node]
  {
    SnocMatch(ss, s, true);
    SnocShape(ss, s);
    SnocNoRefs(ss, s, consts);
  }

  /** What was allocated on behalf of a node that was there already, with its name. */
  function Gained(s: Shape): set<object> {
    Cell(s.text) + CellsAll(s.kids)
  }

  lemma CellsGained(s: Shape)
    ensures Cells(s) == {s.node as object} + Cell(s.name) + Gained(s)
  {}

  /** A node with its children. */
  lemma BuiltNode(s: Shape, consts: bool)
    requires s.isRef == s.node.isReference && s.isConst == s.node.stringIsConst
    requires !s.isRef && (s.isConst ==> consts)
    requires s.text == s.node.valuestring && s.name == s.node.name && (s.text == null || s.text != s.name)
    requires Linked(s.node.child, Heads(s.kids)) && BuiltAll(s.kids, consts)
    requires CellsAll(s.kids) !! {s.node as object} + Cell(s.name) + Cell(s.text)
    ensures Built(s, consts)
  {}

  lemma NoChildren(consts: bool)
    ensures Linked(null, Heads([])) && BuiltAll([], consts) && CellsAll([]) == {}
  {
    assert Heads([]) == [];
  }

  lemma {:induction false} NodesAreCells(ss: seq<Shape>)
    ensures (set x | x in NodesAll(ss) :: x as object) <= CellsAll(ss)
    decreases ss, 0
  {
    if ss != [] {
      NodesAreCells(ss[0].kids);
      NodesAreCells(ss[1..]);
      assert Nodes(ss[0]) == {ss[0].node} + NodesAll(ss[0].kids);
    }
  }

  /** The first nodes of the shapes are not found further below. */
  lemma {:induction false} HeadsNotBelow(ss: seq<Shape>)
    requires ApartAll(ss)
    ensures forall i | 0 <= i < |ss| :: ss[i].node !in Below(ss)
  {
    if ss != [] {
      var tail := ss[1..];
      HeadsNotBelow(tail);
      NodesAreCells(ss);
      NodesAreCells(tail);
      NodesAreCells(ss[0].kids);
      forall i | 0 <= i < |ss| ensures ss[i].node !in Below(ss) {
        if i > 0 {
          assert ss[i] == tail[i - 1];
          assert ss[i].node in NodesAll(tail);
        }
      }
    }
  }

  lemma BuiltHeads(ss: seq<Shape>, consts: bool)
    requires BuiltAll(ss, consts)
    ensures forall i | 0 <= i < |ss| :: ss[i].node !in Below(ss)
  {
    HeadsNotBelow(ss);
  }

  lemma ShapeAllocated(s: Shape)
    ensures forall o | o in Nodes(s) :: allocated(o)
    ensures forall o | o in NodesAll(s.kids) :: allocated(o)
    ensures forall o | o in Strings(s) :: allocated(o) && !(o is Item) && !(o is Memory)
    ensures forall o | o in Cell(s.name) :: allocated(o) && !(o is Item) && !(o is Memory)
    ensures forall o | o in Cells(s) :: allocated(o)
  {
    StringKind(s.name);
    NodesAllocated([s]);
    NodesAllocated(s.kids);
    assert [s][0] == s && [s][1..] == [];
  }

  // ----- growing -----

  /** The children so far: a list behind `first` that ends with `last`. */
  ghost predicate Chained(first: Item?, last: Item?, kids: seq<Shape>, consts: bool)
    reads NodesAll(kids)
  {
    && Linked(first, Heads(kids)) && BuiltAll(kids, consts)
    && last == (if kids == [] then null else kids[|kids| - 1].node)
  }

  lemma LinkedOne(item: Item)
    requires item.next == null && item.prev == null
    ensures Linked(item, [item])
  {}

  /** Hangs one more child behind the last one. */
  method LinkChild(item: Item, last: Item?, child: Item, ghost kids: seq<Shape>, ghost consts: bool)
    requires Chained(item.child, last, kids, consts)
    requires child.next == null && child.prev == null && child !in NodesAll(kids)
    modifies item`child, child`prev, (if last == null then {} else {last})`next
    ensures Linked(item.child, Heads(kids) + [child]) && BuiltAll(kids, consts)
  {
    hide BuiltAll, Linked, NodesAll, Below;
    NodesAllocated(kids);
    BuiltHeads(kids, consts);
    if last == null {
      item.child := child;
      assert kids == [] && Heads(kids) + [child] == [child];
      LinkedOne(child);
      NoChildren(consts);
    } else {
      assert kids[|kids| - 1].node !in Below(kids);
      NotAHead(kids, child);
      SuffixObject(last, child, item.child, Heads(kids));
    }
  }

  lemma NotAHead(kids: seq<Shape>, child: Item)
    requires child !in NodesAll(kids)
    ensures child !in Heads(kids) && child !in Below(kids)
  {}

  /** A child that is linked and filled joins the others. */
  lemma ChainGrows(first: Item?, kids: seq<Shape>, k: Shape, consts: bool)
    requires Linked(first, Heads(kids) + [k.node]) && BuiltAll(kids, consts) && Built(k, consts)
    requires CellsAll(kids) !! Cells(k)
    ensures Chained(first, k.node, kids + [k], consts) && CellsAll(kids + [k]) == CellsAll(kids) + Cells(k)
  {
    hide Linked, BuiltAll, Built;
    SnocBuilt(kids, k, consts);
  }

  // ----- release -----

  /** Without references, all cells but the constant names are owned, each of them once. */
  lemma {:induction false} OwnedCells(ss: seq<Shape>, consts: bool)
    requires ApartAll(ss) && NoRefsAll(ss, consts)
    ensures SeparateAll(ss) && OwnedAll(ss) == CellsAll(ss) - ConstNamesAll(ss)
    ensures ConstNamesAll(ss) <= CellsAll(ss) && (!consts ==> ConstNamesAll(ss) == {})
    decreases ss, 0
  {
    if ss != [] {
      var s := ss[0];
      OwnedCells(s.kids, consts);
      OwnedCells(ss[1..], consts);
      assert Owned(s) == Cells(s) - ConstNames(s) && ConstNames(s) <= Cells(s);
    }
  }

  /** Releases a node without neighbours: what stays behind are the names it takes for constants. */
  method DeleteRoot(root: Item, mem: Memory, ghost s: Shape, ghost consts: bool)
    requires root == s.node && root.next == null && Built(s, consts) && Cells(s) <= mem.live
    modifies mem`live
    ensures mem.live == old(mem.live) - (Cells(s) - ConstNames(s))
    ensures !consts ==> ConstNames(s) == {}
  {
    hide Matches, Separate;
    assert [s][1..] == [];
    DeepMatches(s);
    OwnedCells([s], consts);
    Delete(root, mem, [s]);
  }

  // ----- ownership by paths -----

  /** A way down through children that no reference stands in. */
  predicate Reaches(s: Shape, path: seq<int>)
    decreases path
  {
    path != [] ==> !s.isRef && 0 <= path[0] < |s.kids| && Reaches(s.kids[path[0]], path[1..])
  }

  function Reached(s: Shape, path: seq<int>): Shape
    requires Reaches(s, path)
    decreases path
  {
    if path == [] then s else Reached(s.kids[path[0]], path[1..])
  }

  /** The node itself, its text unless it is a reference, and its name unless it is constant. */
  predicate BelongsTo(o: object, s: Shape) {
    o == s.node || (!s.isRef && s.text != null && o == s.text) || (!s.isConst && s.name != null && o == s.name)
  }

  predicate LeadsTo(s: Shape, path: seq<int>, o: object) {
    Reaches(s, path) && BelongsTo(o, Reached(s, path))
  }

  lemma {:induction false} OwnedAllAt(ss: seq<Shape>, o: object)
    ensures o in OwnedAll(ss) <==> exists i :: 0 <= i < |ss| && o in Owned(ss[i])
  {
    hide Owned;
    if ss != [] {
      OwnedAllAt(ss[1..], o);
      assert forall i | 1 <= i < |ss| :: ss[i] == ss[1..][i - 1];
    }
  }

  lemma LeadsFurther(s: Shape, path: seq<int>, o: object)
    ensures LeadsTo(s, path, o) <==>
      if path == [] then BelongsTo(o, s)
      else !s.isRef && 0 <= path[0] < |s.kids| && LeadsTo(s.kids[path[0]], path[1..], o)
  {}

  /** What is freed with a node is what belongs to the nodes that can be reached from it. */
  lemma {:induction false} OwnedExactly(s: Shape, o: object)
    ensures o in Owned(s) <==> exists path :: LeadsTo(s, path, o)
    decreases s
  {
    OwnedAllAt(s.kids, o);
    assert o in Owned(s) <==> BelongsTo(o, s) || (!s.isRef && o in OwnedAll(s.kids));
    hide LeadsTo, Owned, OwnedAll;
    LeadsFurther(s, [], o);
    forall i | 0 <= i < |s.kids| && !s.isRef && o in Owned(s.kids[i]) ensures exists path :: LeadsTo(s, path, o) {
      OwnedExactly(s.kids[i], o);
      var p :| LeadsTo(s.kids[i], p, o);
      LeadsFurther(s, [i] + p, o);
      assert ([i] + p)[1..] == p;
    }
    forall path | LeadsTo(s, path, o) ensures o in Owned(s) {
      LeadsFurther(s, path, o);
      if path != [] {
        OwnedExactly(s.kids[path[0]], o);
      }
    }
  }
}
