/** The edits of an array's children: the pointer surgery refines edits of a sequence. */
module JsonListEdits {

  import opened JsonForest
  import opened JsonHeap

  // ----- edits of sequences -----

  /** The position an index means: what is negative means the first. */
  function Slot(which: int): nat {
    if which > 0 then which else 0
  }

  function Inserted<T>(xs: seq<T>, which: int, x: T): seq<T> {
    if Slot(which) < |xs| then xs[..Slot(which)] + [x] + xs[Slot(which)..] else xs + [x]
  }

  function Replaced<T>(xs: seq<T>, which: int, x: T): seq<T> {
    if Slot(which) < |xs| then xs[Slot(which) := x] else xs
  }

  function Removed<T>(xs: seq<T>, which: int): seq<T> {
    if Slot(which) < |xs| then xs[..Slot(which)] + xs[Slot(which) + 1..] else xs
  }

  function ItemAt(items: seq<Item>, which: int): Item? {
    if Slot(which) < |items| then items[Slot(which)] else null
  }

  /** An edit by a negative index is one at the front; past the end only insertion does anything. */
  lemma EditsByIndex<T>(xs: seq<T>, which: int, x: T)
    ensures which <= 0 ==> Inserted(xs, which, x) == [x] + xs
    ensures which >= |xs| ==> Inserted(xs, which, x) == xs + [x]
    ensures 0 <= which < |xs| ==> Inserted(xs, which, x) == xs[..which] + [x] + xs[which..]
    ensures which <= 0 && xs != [] ==> Replaced(xs, which, x) == [x] + xs[1..] && Removed(xs, which) == xs[1..]
    ensures which >= |xs| ==> Replaced(xs, which, x) == xs && Removed(xs, which) == xs
    ensures 0 <= which < |xs| ==>
      Replaced(xs, which, x) == xs[..which] + [x] + xs[which + 1..] && Removed(xs, which) == xs[..which] + xs[which + 1..]
  {}

  // ----- edits of lists -----

  /** Walks to a child by its index. */
  method Seek(first: Item?, which: int, ghost items: seq<Item>) returns (c: Item?)
    requires Linked(first, items)
    ensures c == ItemAt(items, which)
  {
    c := first;
    var left := which;
    ghost var i := 0;
    while c != null && left > 0
      invariant i <= |items| && i <= Slot(which) && c == Before(items, i + 1)
      invariant left == if which > 0 then which - i else which
      decreases |items| - i
    {
      assert items[i].next == After(items, i);
      c := c.next;
      left := left - 1;
      i := i + 1;
    }
  }

  predicate Distinct(items: seq<Item>) {
    forall j, k | 0 <= j < k < |items| :: items[j] != items[k]
  }

  /** What a list says of a node and its neighbours. */
  lemma Neighbours(first: Item?, items: seq<Item>, i: nat)
    requires Linked(first, items) && i < |items|
    ensures Distinct(items) && first == items[0]
    ensures items[i].prev == Before(items, i) && items[i].next == After(items, i)
    ensures forall k | 0 <= k < |items| :: items[k].next == After(items, k)
    ensures forall k | 0 <= k < |items| :: items[k].prev == Before(items, k)
    ensures forall k | 0 <= k < |items| && k != i :: items[k] != items[i]
    ensures i > 0 ==> forall k | 0 <= k < |items| && k != i - 1 :: items[k] != items[i - 1]
    ensures i + 1 < |items| ==> forall k | 0 <= k < |items| && k != i + 1 :: items[k] != items[i + 1]
  {}

  method AddItemToArray(parent: Item, item: Item?, ghost items: seq<Item>)
    requires Linked(parent.child, items)
    requires item != null ==> item !in items && item.next == null && item.prev == null
    modifies parent`child, (set x | x in items)`next, (if item == null then {} else {item})`prev
    ensures Linked(parent.child, if item == null then items else items + [item])
  {
    if item == null {
      return;
    }
    var c := parent.child;
    if c == null {
      parent.child := item;
      assert items + [item] == [item];
    } else {
      ghost var i := 0;
      while c.next != null
        invariant i < |items| && c == items[i]
        decreases |items| - i
      {
        assert items[i].next == After(items, i);
        c := c.next;
        i := i + 1;
      }
      assert items[i].next == After(items, i);
      SuffixObject(c, item, parent.child, items);
    }
  }

  method InsertItemInArray(parent: Item, which: int, newitem: Item, ghost items: seq<Item>)
    requires Linked(parent.child, items)
    requires newitem !in items && newitem.next == null && newitem.prev == null
    modifies parent`child, (set x | x in items)`next, (set x | x in items)`prev, newitem`next, newitem`prev
    ensures Linked(parent.child, Inserted(items, which, newitem))
  {
    hide Linked, Distinct;
    var c := Seek(parent.child, which, items);
    if c == null {
      AddItemToArray(parent, newitem, items);
      return;
    }
    ghost var i := Slot(which);
    Neighbours(parent.child, items, i);
    newitem.next := c;
    newitem.prev := c.prev;
    c.prev := newitem;
    if c == parent.child {
      parent.child := newitem;
    } else {
      newitem.prev.next := newitem;
    }
    InsertLinks(parent.child, items, i, newitem);
  }

  /** The links of a list with a node in between are those of the list but next to the node. */
  lemma InsertLinks(first: Item?, items: seq<Item>, i: nat, item: Item)
    requires i < |items| && item !in items
    requires Distinct(items)
    requires forall k | 0 <= k < |items| :: items[k].next == if k + 1 == i then item else After(items, k)
    requires forall k | 0 <= k < |items| :: items[k].prev == if k == i then item else Before(items, k)
    requires item.next == items[i] && item.prev == Before(items, i)
    requires first == if i == 0 then item else items[0]
    ensures Linked(first, items[..i] + [item] + items[i..])
  {
    var all := items[..i] + [item] + items[i..];
    Spread(items, i, item, all);
    forall k | 0 <= k < |all| ensures all[k].next == After(all, k) && all[k].prev == Before(all, k) {
      var was := if k < i then k else k - 1;
      assert k != i ==> all[k] == items[was];
    }
    forall j, k | 0 <= j < k < |all| ensures all[j] != all[k] {
      assert j != i ==> all[j] == items[if j < i then j else j - 1];
      assert k != i ==> all[k] == items[if k < i then k else k - 1];
    }
  }

  lemma Spread(items: seq<Item>, i: nat, item: Item, all: seq<Item>)
    requires i <= |items| && all == items[..i] + [item] + items[i..]
    ensures |all| == |items| + 1 && all[i] == item
    ensures forall k | 0 <= k < i :: all[k] == items[k]
    ensures forall k | i < k < |all| :: all[k] == items[k - 1]
  {}

  /** `cJSON_DetachItemFromArray`: the node keeps its own links unless it was the first. */
  method DetachItemFromArray(parent: Item, which: int, ghost items: seq<Item>) returns (c: Item?)
    requires Linked(parent.child, items)
    modifies parent`child, (set x | x in items)`next, (set x | x in items)`prev
    ensures c == ItemAt(items, which)
    ensures Linked(parent.child, Removed(items, which))
    ensures c != null ==>
      var i := Slot(which);
      c.next == (if i == 0 then null else After(items, i)) && c.prev == Before(items, i)
  {
    hide Linked, Distinct;
    c := Seek(parent.child, which, items);
    if c == null {
      return;
    }
    ghost var i := Slot(which);
    Neighbours(parent.child, items, i);
    if c.prev != null {
      c.prev.next := c.next;
    }
    if c.next != null {
      c.next.prev := c.prev;
    }
    if c == parent.child {
      parent.child := c.next;
      c.prev, c.next := null, null;
    }
    RemoveLinks(parent.child, items, i);
  }

  lemma RemoveLinks(first: Item?, items: seq<Item>, i: nat)
    requires i < |items|
    requires Distinct(items)
    requires forall k | 0 <= k < |items| && k != i :: items[k].next == if k + 1 == i then After(items, i) else After(items, k)
    requires forall k | 0 <= k < |items| && k != i :: items[k].prev == if k == i + 1 then Before(items, i) else Before(items, k)
    requires first == if i == 0 then After(items, 0) else items[0]
    ensures Linked(first, items[..i] + items[i + 1..])
  {
    var all := items[..i] + items[i + 1..];
    forall k | 0 <= k < |all| ensures all[k].next == After(all, k) && all[k].prev == Before(all, k) {
      if k >= i {
        assert all[k] == items[k + 1];
      }
    }
  }

  /** Puts a node in the place of another, which is cut off from its neighbours. */
  method Exchange(parent: Item, c: Item, newitem: Item, ghost items: seq<Item>, ghost i: nat)
    requires Linked(parent.child, items) && i < |items| && c == items[i]
    requires newitem !in items && newitem.next == null && newitem.prev == null
    modifies parent`child, (set x | x in items)`next, (set x | x in items)`prev, newitem`next, newitem`prev
    ensures Linked(parent.child, items[i := newitem]) && c.next == null && c.prev == null
  {
    hide Linked, Distinct;
    Neighbours(parent.child, items, i);
    newitem.next := c.next;
    newitem.prev := c.prev;
    if newitem.next != null {
      newitem.next.prev := newitem;
    }
    if c == parent.child {
      parent.child := newitem;
    } else {
      newitem.prev.next := newitem;
    }
    c.prev, c.next := null, null;
    ReplaceLinks(parent.child, items, i, newitem);
  }

  /** `cJSON_ReplaceItemInArray`: the old node is released; when there is none the new node is left alone. */
  method ReplaceItemInArray(parent: Item, which: int, newitem: Item, mem: Memory, ghost ss: seq<Shape>)
    requires Linked(parent.child, Heads(ss))
    requires newitem !in Heads(ss) && newitem.next == null && newitem.prev == null
    requires Slot(which) < |ss| ==>
      var s := ss[Slot(which)];
      && Matches(s, false) && Separate(s) && Owned(s) <= mem.live
      && parent !in Nodes(s) && newitem !in Nodes(s)
      && forall i | 0 <= i < |ss| :: ss[i].node !in NodesAll(s.kids)
    modifies parent`child, (set x | x in Heads(ss))`next, (set x | x in Heads(ss))`prev, newitem`next, newitem`prev, mem`live
    ensures Linked(parent.child, Replaced(Heads(ss), which, newitem))
    ensures mem.live == old(mem.live) - (if Slot(which) < |ss| then Owned(ss[Slot(which)]) else {})
  {
    hide Linked, Matches, Separate, Owned;
    if Slot(which) < |ss| {
      ShapeAllocated(ss[Slot(which)]);
    }
    var c := Seek(parent.child, which, Heads(ss));
    if c != null {
      ghost var s := ss[Slot(which)];
      assert Matches(s, false);
      assert forall o | o in Heads(ss) :: o !in NodesAll(s.kids);
      Exchange(parent, c, newitem, Heads(ss), Slot(which));
      assert Matches(s, false);
      assert [s][1..] == [];
      Delete(c, mem, [s]);
    }
  }

  lemma ReplaceLinks(first: Item?, items: seq<Item>, i: nat, item: Item)
    requires i < |items| && item !in items
    requires Distinct(items)
    requires forall k | 0 <= k < |items| && k != i :: items[k].next == if k + 1 == i then item else After(items, k)
    requires forall k | 0 <= k < |items| && k != i :: items[k].prev == if k == i + 1 then item else Before(items, k)
    requires item.next == After(items, i) && item.prev == Before(items, i)
    requires first == if i == 0 then item else items[0]
    ensures Linked(first, items[i := item])
  {
    var all := items[i := item];
    forall k | 0 <= k < |all| ensures all[k].next == After(all, k) && all[k].prev == Before(all, k) {
      if k != i {
        assert all[k] == items[k];
      }
    }
  }

  // ----- deleting a child -----

  /** The children that deleting one of them releases: unless it is the first, it takes those behind it along. */
  function Doomed(ss: seq<Shape>, which: int): seq<Shape> {
    if |ss| <= Slot(which) then [] else if Slot(which) == 0 then ss[..1] else ss[Slot(which)..]
  }

  lemma {:induction false} OwnedSuffix(ss: seq<Shape>, i: nat)
    requires i <= |ss| && MatchAll(ss, false) && SeparateAll(ss)
    ensures MatchAll(ss[i..], false) && SeparateAll(ss[i..]) && OwnedAll(ss[i..]) <= OwnedAll(ss)
  {
    if i > 0 {
      OwnedSuffix(ss[1..], i - 1);
      assert ss[1..][i - 1..] == ss[i..];
    } else {
      assert ss[0..] == ss;
    }
  }

  lemma OwnedFirst(ss: seq<Shape>)
    requires ss != [] && MatchAll(ss, false) && SeparateAll(ss)
    ensures MatchAll(ss[..1], false) && SeparateAll(ss[..1]) && OwnedAll(ss[..1]) == Owned(ss[0]) <= OwnedAll(ss)
  {
    assert ss[..1][0] == ss[0] && ss[..1][1..] == [];
  }

  /** Only the first and the last child are deleted alone. */
  lemma DeletesOne(ss: seq<Shape>, which: int)
    requires MatchAll(ss, false) && SeparateAll(ss) && Slot(which) < |ss|
    ensures OwnedAll(Doomed(ss, which)) == Owned(ss[Slot(which)]) <==> Slot(which) == 0 || Slot(which) == |ss| - 1
  {
    hide Owned, Separate, Matches;
    var i := Slot(which);
    if i == 0 {
      OwnedFirst(ss);
    } else {
      OwnedSuffix(ss, i);
      assert ss[i..][0] == ss[i] && ss[i..][1..] == ss[i + 1..];
      if i < |ss| - 1 {
        OwnedSuffix(ss, i + 1);
        NodeIsOwned(ss[i + 1]);
        assert ss[i + 1..][0] == ss[i + 1];
      }
    }
  }

  lemma NodeIsOwned(s: Shape)
    ensures s.node as object in Owned(s)
  {}

  /** `cJSON_DeleteItemFromArray`: one child leaves the list, but its old successors are released with it. */
  method DeleteItemFromArray(parent: Item, which: int, mem: Memory, ghost ss: seq<Shape>)
    requires Linked(parent.child, Heads(ss)) && MatchAll(ss, false) && SeparateAll(ss) && OwnedAll(ss) <= mem.live
    requires parent !in NodesAll(ss) && forall i | 0 <= i < |ss| :: ss[i].node !in Below(ss)
    modifies parent`child, (set x | x in Heads(ss))`next, (set x | x in Heads(ss))`prev, mem`live
    ensures Linked(parent.child, Removed(Heads(ss), which))
    ensures mem.live == old(mem.live) - OwnedAll(Doomed(ss, which))
  {
    hide Linked, MatchAll, SeparateAll, OwnedAll, NextLinked;
    NodesAllocated(ss);
    var c := DetachItemFromArray(parent, which, Heads(ss));
    assert MatchAll(ss, false);
    DoomedReady(parent.child, c, ss, which);
    Delete(c, mem, Doomed(ss, which));
  }

  lemma DoomedReady(first: Item?, c: Item?, ss: seq<Shape>, which: int)
    requires MatchAll(ss, false) && SeparateAll(ss)
    requires Linked(first, Removed(Heads(ss), which)) && c == ItemAt(Heads(ss), which)
    requires c != null ==> c.next == if Slot(which) == 0 then null else After(Heads(ss), Slot(which))
    ensures var d := Doomed(ss, which);
      NextLinked(c, d) && MatchAll(d, false) && SeparateAll(d) && OwnedAll(d) <= OwnedAll(ss)
  {
    hide Linked, Matches, Separate;
    var i := Slot(which);
    if |ss| <= i {
    } else if i == 0 {
      OwnedFirst(ss);
      AloneNext(c, ss[..1]);
    } else {
      OwnedSuffix(ss, i);
      StillNext(first, ss, i);
    }
  }

  lemma AloneNext(c: Item, ss: seq<Shape>)
    requires |ss| == 1 && ss[0].node == c && c.next == null
    ensures NextLinked(c, ss)
  {}

  /** The detached node still leads to its old successors. */
  lemma StillNext(first: Item?, ss: seq<Shape>, i: nat)
    requires i < |ss| && Linked(first, Removed(Heads(ss), i)) && ss[i].node.next == After(Heads(ss), i)
    ensures NextLinked(ss[i].node, ss[i..])
  {
    var items := Heads(ss);
    var rest := items[..i] + items[i + 1..];
    forall k | i <= k < |items| ensures items[k].next == After(items, k) {
      if k > i {
        assert rest[k - 1] == items[k] && rest[k - 1].next == After(rest, k - 1);
      }
    }
    LinkedNext(items, ss, i);
  }

  // ----- runs of edits -----

  datatype Edit = Add(item: Shape) | Insert(which: int, item: Shape) | Replace(which: int, item: Shape) | Detach(which: int)

  /** The children after an edit. */
  function Edited(ss: seq<Shape>, e: Edit): seq<Shape> {
    match e
    case Add(item) => ss + [item]
    case Insert(which, item) => Inserted(ss, which, item)
    case Replace(which, item) => Replaced(ss, which, item)
    case Detach(which) => Removed(ss, which)
  }

  function EditedAll(ss: seq<Shape>, es: seq<Edit>): seq<Shape>
    decreases |es|
  {
    if es == [] then ss else EditedAll(Edited(ss, es[0]), es[1..])
  }

  function News(e: Edit): seq<Shape> {
    if e.Detach? then [] else [e.item]
  }

  function NewsAll(es: seq<Edit>): seq<Shape> {
    if es == [] then [] else News(es[0]) + NewsAll(es[1..])
  }

  /** The children that an edit releases. */
  function Dropped(ss: seq<Shape>, e: Edit): seq<Shape> {
    if e.Replace? && Slot(e.which) < |ss| then [ss[Slot(e.which)]] else []
  }

  function DroppedAll(ss: seq<Shape>, es: seq<Edit>): seq<Shape>
    decreases |es|
  {
    if es == [] then [] else Dropped(ss, es[0]) + DroppedAll(Edited(ss, es[0]), es[1..])
  }

  function Roots(stock: set<Shape>): set<Item> {
    set s | s in stock :: s.node
  }

  /** The nodes that an edit may link differently. */
  function Touched(ss: seq<Shape>, e: Edit): set<Item> {
    Roots(set s | s in ss + News(e))
  }

  function AllNodes(stock: set<Shape>): set<Item> {
    set s, x | s in stock && x in Nodes(s) :: x
  }

  /** Separate trees, none of which is part of another. */
  ghost predicate Fit(stock: set<Shape>)
    reads AllNodes(stock)
  {
    && (forall s | s in stock :: Matches(s, false) && Separate(s))
    && (forall s, t | s in stock && t in stock :: s.node !in NodesAll(t.kids))
    && (forall s, t | s in stock && t in stock && s != t :: Owned(s) !! Owned(t))
  }

  /** A tree that has not been used yet. */
  ghost predicate Unused(s: Shape, ss: seq<Shape>, stock: set<Shape>)
    reads s.node
  {
    s in stock && s !in ss && s.node.next == null && s.node.prev == null
  }

  lemma EditedElements(ss: seq<Shape>, e: Edit)
    ensures forall s | s in Edited(ss, e) :: s in ss || s in News(e)
  {}

  lemma HeadsEdited(ss: seq<Shape>, e: Edit)
    ensures Heads(Edited(ss, e)) == match e {
      case Add(item) => Heads(ss) + [item.node]
      case Insert(which, item) => Inserted(Heads(ss), which, item.node)
      case Replace(which, item) => Replaced(Heads(ss), which, item.node)
      case Detach(which) => Removed(Heads(ss), which)
    }
  {}

  method Perform(parent: Item, e: Edit, mem: Memory, ghost ss: seq<Shape>, ghost stock: set<Shape>)
    requires Fit(stock) && Linked(parent.child, Heads(ss)) && parent !in AllNodes(stock)
    requires forall s | s in ss :: s in stock && Owned(s) <= mem.live
    requires forall s | s in News(e) :: Unused(s, ss, stock)
    modifies parent`child, mem`live
    modifies Touched(ss, e)`next, Touched(ss, e)`prev
    ensures Linked(parent.child, Heads(Edited(ss, e)))
    ensures mem.live == old(mem.live) - OwnedAll(Dropped(ss, e))
  {
    hide Linked, Matches, Separate, Owned, Nodes, NodesAll;
    HeadsEdited(ss, e);
    StockAllocated(stock);
    if !e.Detach? {
      NewItem(ss, e, stock);
    }
    OldItem(ss, e, stock, parent);
    match e {
      case Add(item) =>
        AddItemToArray(parent, item.node, Heads(ss));
      case Insert(which, item) =>
        InsertItemInArray(parent, which, item.node, Heads(ss));
      case Replace(which, item) =>
        ReplaceItemInArray(parent, which, item.node, mem, ss);
      case Detach(which) =>
        var c := DetachItemFromArray(parent, which, Heads(ss));
    }
  }

  /** What a new tree is for a list of others. */
  lemma NewItem(ss: seq<Shape>, e: Edit, stock: set<Shape>)
    requires Fit(stock) && (forall s | s in ss :: s in stock) && !e.Detach?
    requires forall s | s in News(e) :: Unused(s, ss, stock)
    ensures e.item in stock && e.item.node !in Heads(ss) && e.item.node.next == null && e.item.node.prev == null
    ensures forall s | s in ss :: e.item.node !in Nodes(s)
  {
    hide Matches, Separate, Owned;
    var item := e.item;
    assert item in News(e);
    forall s | s in ss ensures item.node != s.node && item.node !in Nodes(s) {
      NodeIsOwned(item);
      NodeIsOwned(s);
    }
  }

  lemma OldItem(ss: seq<Shape>, e: Edit, stock: set<Shape>, parent: Item)
    requires Fit(stock) && (forall s | s in ss :: s in stock) && parent !in AllNodes(stock)
    ensures forall s | s in ss :: Matches(s, false) && Separate(s) && parent !in Nodes(s)
    ensures forall s, i | s in ss && 0 <= i < |ss| :: ss[i].node !in NodesAll(s.kids)
    ensures e.Replace? && Slot(e.which) < |ss| ==> OwnedAll(Dropped(ss, e)) == Owned(ss[Slot(e.which)])
    ensures !(e.Replace? && Slot(e.which) < |ss|) ==> OwnedAll(Dropped(ss, e)) == {}
  {
    hide Matches, Separate, Owned;
  }

  lemma StockAllocated(stock: set<Shape>)
    ensures forall s, o | s in stock && o in Nodes(s) :: allocated(o)
    ensures forall s, o | s in stock && o in Nodes(s) :: o in AllNodes(stock)
    ensures forall s, o | s in stock && o in NodesAll(s.kids) :: allocated(o)
  {
    forall s | s in stock
      ensures forall o | o in Nodes(s) :: allocated(o)
      ensures forall o | o in NodesAll(s.kids) :: allocated(o)
    {
      ShapeAllocated(s);
    }
  }

  /** The roots of the trees are not found inside the trees. */
  lemma RootsOutside(ss: seq<Shape>, e: Edit, stock: set<Shape>)
    requires Fit(stock) && (forall s | s in ss :: s in stock) && (forall s | s in News(e) :: s in stock)
    ensures forall s, o | s in stock && o in Touched(ss, e) :: o !in NodesAll(s.kids)
  {
    hide Matches, Separate, Owned;
  }

  /** One edit: the list is edited like the sequence, and what it releases is what it replaces. */
  method Step(parent: Item, e: Edit, mem: Memory, ghost ss: seq<Shape>, ghost stock: set<Shape>)
    requires Fit(stock) && Linked(parent.child, Heads(ss)) && parent !in AllNodes(stock)
    requires forall s | s in ss :: s in stock && Owned(s) <= mem.live
    requires forall s | s in News(e) :: Unused(s, ss, stock)
    modifies parent`child, mem`live
    modifies Touched(ss, e)`next, Touched(ss, e)`prev
    ensures Linked(parent.child, Heads(Edited(ss, e)))
    ensures mem.live == old(mem.live) - OwnedAll(Dropped(ss, e))
    ensures Fit(stock)
  {
    hide Linked, Matches, Separate, Owned, Nodes, NodesAll, News, Touched;
    StockAllocated(stock);
    RootsOutside(ss, e, stock);
    Perform(parent, e, mem, ss, stock);
    forall s | s in stock ensures Matches(s, false) {
      assert old(Matches(s, false));
    }
  }

  /** Trees as they are parsed or built, and without common cells, are fit for any run of edits. */
  lemma BuiltFit(stock: set<Shape>, consts: bool)
    requires forall s | s in stock :: Built(s, consts)
    requires forall s, t | s in stock && t in stock && s != t :: Cells(s) !! Cells(t)
    ensures Fit(stock)
  {
    hide Matches, Separate, Owned, Cells, Nodes, NodesAll, Built;
    forall s | s in stock
      ensures Matches(s, false) && Separate(s) && Owned(s) <= Cells(s) && s.node as object in Cells(s)
      ensures s.node !in NodesAll(s.kids)
      ensures forall o: Item | o in NodesAll(s.kids) :: o as object in Cells(s)
    {
      BuiltTree(s, consts);
    }
  }

  lemma BuiltTree(s: Shape, consts: bool)
    requires Built(s, consts)
    ensures Matches(s, false) && Separate(s) && Owned(s) <= Cells(s) && s.node as object in Cells(s)
    ensures s.node !in NodesAll(s.kids)
    ensures forall o: Item | o in NodesAll(s.kids) :: o as object in Cells(s)
  {
    hide Matches, Separate, Owned;
    DeepMatches(s);
    assert [s][0] == s && [s][1..] == [];
    OwnedCells([s], consts);
    NodesAreCells(s.kids);
  }

  /** The children of a tree, as they are parsed, are such trees, and their parent is in none of them. */
  lemma {:induction false} KidsBuilt(ss: seq<Shape>, consts: bool)
    requires BuiltAll(ss, consts)
    ensures forall s | s in ss :: Built(s, consts) && Cells(s) <= CellsAll(ss)
    ensures forall s, t | s in ss && t in ss && s != t :: Cells(s) !! Cells(t)
  {
    hide Matches, Apart, NoRefs, Cells;
    if ss != [] {
      KidsBuilt(ss[1..], consts);
      assert ss == [ss[0]] + ss[1..];
    }
  }

  lemma ParsedListFits(s: Shape, consts: bool)
    requires Built(s, consts)
    ensures Linked(s.node.child, Heads(s.kids)) && Fit(set k | k in s.kids)
    ensures s.node !in AllNodes(set k | k in s.kids)
  {
    hide Fit;
    KidsBuilt(s.kids, consts);
    BuiltFit((set k | k in s.kids), consts);
    RootOfKids(s, consts);
  }

  lemma RootOfKids(s: Shape, consts: bool)
    requires Built(s, consts)
    ensures s.node !in AllNodes(set k | k in s.kids)
  {
    BuiltTree(s, consts);
    assert forall k | k in s.kids :: Nodes(k) <= NodesAll(s.kids);
  }

  /** What an edit releases is nothing that is still in use. */
  lemma DroppedApart(ss: seq<Shape>, e: Edit, stock: set<Shape>)
    requires Fit(stock) && (forall s | s in ss :: s in stock) && (forall s | s in News(e) :: Unused(s, ss, stock))
    requires Distinct(Heads(ss))
    ensures forall s | s in Edited(ss, e) :: s in stock && Owned(s) !! OwnedAll(Dropped(ss, e))
    ensures forall s | s in stock && s !in ss :: Owned(s) !! OwnedAll(Dropped(ss, e))
  {
    hide Matches, Separate, Owned;
    EditedElements(ss, e);
    if e.Replace? && Slot(e.which) < |ss| {
      var i := Slot(e.which);
      assert Dropped(ss, e)[1..] == [];
      assert e.item in News(e);
      forall s | s in Edited(ss, e) ensures s != ss[i] {
        var k :| 0 <= k < |ss| && Edited(ss, e)[k] == s;
        assert k != i ==> Heads(ss)[k] != Heads(ss)[i];
      }
    }
  }

  lemma LinkedDistinct(first: Item?, items: seq<Item>)
    requires Linked(first, items)
    ensures Distinct(items)
  {}

  /** Trees that are not touched are still unused. */
  lemma UntouchedRoots(ss: seq<Shape>, e: Edit, stock: set<Shape>)
    requires Fit(stock) && (forall s | s in ss :: s in stock) && (forall s | s in News(e) :: Unused(s, ss, stock))
    ensures forall s | s in stock && s !in ss && s !in News(e) :: s.node !in Touched(ss, e)
    ensures Touched(ss, e) <= Roots(stock)
  {
    hide Matches, Separate, Owned;
    forall s, t | s in stock && t in stock && s != t ensures s.node != t.node {
      NodeIsOwned(s);
      NodeIsOwned(t);
    }
  }

  /** Over any run of edits with trees that were not used before, the list of children is the edited
      sequence, doubly linked, and exactly the replaced trees are released. */
  method Run(parent: Item, es: seq<Edit>, mem: Memory, ghost ss: seq<Shape>, ghost stock: set<Shape>)
    requires Fit(stock) && Linked(parent.child, Heads(ss)) && parent !in AllNodes(stock)
    requires forall s | s in ss :: s in stock && Owned(s) <= mem.live
    requires forall s | s in NewsAll(es) :: Unused(s, ss, stock) && Owned(s) <= mem.live
    requires forall i, j | 0 <= i < j < |NewsAll(es)| :: NewsAll(es)[i] != NewsAll(es)[j]
    modifies parent`child, mem`live, Roots(stock)`next, Roots(stock)`prev
    ensures Fit(stock) && Linked(parent.child, Heads(EditedAll(ss, es)))
    ensures mem.live == old(mem.live) - OwnedAll(DroppedAll(ss, es))
    decreases |es|
  {
    hide Linked, Fit, Owned, Edited, AllNodes, Distinct, Touched;
    if es != [] {
      var e, rest := es[0], es[1..];
      LaterNews(es);
      LinkedDistinct(parent.child, Heads(ss));
      DroppedApart(ss, e, stock);
      UntouchedRoots(ss, e, stock);
      EditedElements(ss, e);
      Step(parent, e, mem, ss, stock);
      Run(parent, rest, mem, Edited(ss, e), stock);
      DropFirst(ss, es);
    }
  }

  lemma LaterNews(es: seq<Edit>)
    requires es != [] && forall i, j | 0 <= i < j < |NewsAll(es)| :: NewsAll(es)[i] != NewsAll(es)[j]
    ensures forall s | s in News(es[0]) :: s in NewsAll(es) && s !in NewsAll(es[1..])
    ensures forall s | s in NewsAll(es[1..]) :: s in NewsAll(es)
    ensures forall i, j | 0 <= i < j < |NewsAll(es[1..])| :: NewsAll(es[1..])[i] != NewsAll(es[1..])[j]
  {
    var later := NewsAll(es[1..]);
    var n := |News(es[0])|;
    forall i | 0 <= i < |later| ensures later[i] == NewsAll(es)[n + i] && later[i] !in News(es[0]) {
      assert later[i] == NewsAll(es)[n + i];
    }
  }

  lemma DropFirst(ss: seq<Shape>, es: seq<Edit>)
    requires es != []
    ensures OwnedAll(DroppedAll(ss, es)) == OwnedAll(Dropped(ss, es[0])) + OwnedAll(DroppedAll(Edited(ss, es[0]), es[1..]))
  {
    hide Owned, Edited;
    var later := DroppedAll(Edited(ss, es[0]), es[1..]);
    if Dropped(ss, es[0]) == [] {
      assert [] + later == later;
    } else {
      var d := Dropped(ss, es[0]);
      assert d[1..] == [] && (d + later)[1..] == later;
    }
  }
}
