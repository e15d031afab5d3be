/** The block allocator of queue.c: what each call does under the mutex, and every interleaving of calls. */
module ImageQueue {

  const QUEUE_SIZE := 5

  // ----- the queue -----

  datatype Queue = Queue(inUse: seq<bool>, head: nat, tail: nat)

  /** Outside of `pthread_cond_wait` the block at the head is free. */
  predicate Available(q: Queue)
    requires |q.inUse| == QUEUE_SIZE && q.head < QUEUE_SIZE
  {
    !q.inUse[q.head]
  }

  function Succ(i: nat): (j: nat)
    ensures j < QUEUE_SIZE
  {
    (i + 1) % QUEUE_SIZE
  }

  function Taken(q: Queue): Queue
    requires |q.inUse| == QUEUE_SIZE && q.head < QUEUE_SIZE
  {
    q.(inUse := q.inUse[q.head := true], head := Succ(q.head))
  }

  function Returned(q: Queue, i: nat): Queue
    requires |q.inUse| == QUEUE_SIZE && i < QUEUE_SIZE
  {
    q.(inUse := q.inUse[i := false], tail := Succ(q.tail))
  }

  datatype Element = Element(address: int, inUse: bool)

  /** The outcome of a turn of the waiting loop. */
  datatype Turn = Blocked | Block(address: int)

  class ImageQueue {
    const elements: array<Element>
    var head: nat
    var tail: nat

    ghost predicate Valid()
      reads this, elements
    {
      && elements.Length == QUEUE_SIZE && head < QUEUE_SIZE && tail < QUEUE_SIZE
      && forall i, j | 0 <= i < j < QUEUE_SIZE :: elements[i].address != elements[j].address
    }

    ghost function Value(): Queue
      reads this, elements
      requires Valid()
    {
      Queue(seq(QUEUE_SIZE, i requires 0 <= i < QUEUE_SIZE && elements.Length == QUEUE_SIZE reads elements
        => elements[i].inUse), head, tail)
    }

    ghost function Addresses(): seq<int>
      reads this, elements
      requires Valid()
    {
      seq(QUEUE_SIZE, i requires 0 <= i < QUEUE_SIZE && elements.Length == QUEUE_SIZE reads elements
        => elements[i].address)
    }

    /** `queue_init`, given the blocks that were allocated. */
    constructor (blocks: seq<int>)
      requires |blocks| == QUEUE_SIZE && forall i, j | 0 <= i < j < QUEUE_SIZE :: blocks[i] != blocks[j]
      ensures Valid() && fresh(elements) && Addresses() == blocks
      ensures Value() == Queue([false, false, false, false, false], 0, 0)
    {
      elements := new Element[QUEUE_SIZE](i requires 0 <= i < |blocks| => Element(blocks[i], false));
      head, tail := 0, 0;
    }

    /** `queue_allocate` with the mutex held, up to the next `pthread_cond_wait` or the return. */
    method Allocate() returns (t: Turn)
      requires Valid()
      modifies this`head, elements
      ensures Valid() && Addresses() == old(Addresses())
      ensures !Available(old(Value())) ==> t == Blocked && Value() == old(Value())
      ensures Available(old(Value())) ==> t == Block(Addresses()[old(head)]) && Value() == Taken(old(Value()))
    {
      if elements[head].inUse {
        return Blocked;
      }
      t := Block(elements[head].address);
      elements[head] := elements[head].(inUse := true);
      head := (head + 1) % QUEUE_SIZE;
    }

    /** `queue_release`: a block that the queue does not know changes nothing. */
    method Release(address: int)
      requires Valid()
      modifies this`tail, elements
      ensures Valid() && Addresses() == old(Addresses())
      ensures address !in old(Addresses()) ==> Value() == old(Value())
      ensures forall i | 0 <= i < QUEUE_SIZE && old(Addresses())[i] == address :: Value() == Returned(old(Value()), i)
    {
      ghost var addresses := Addresses();
      for i := 0 to QUEUE_SIZE
        invariant Valid() && Value() == old(Value()) && Addresses() == addresses
        invariant forall j | 0 <= j < i :: addresses[j] != address
      {
        if elements[i].address == address {
          elements[i] := elements[i].(inUse := false);
          tail := (tail + 1) % QUEUE_SIZE;
          assert addresses[i] == address && address in addresses;
          assert Addresses() == addresses && Value() == Returned(old(Value()), i);
          break;
        }
      }
    }
  }

  // ----- interleavings -----

  /** A run of many threads: the queue, the allocations so far, who holds which of them, in which order
      allocations were released, and who waits. */
  datatype State = State(
    q: Queue, slots: seq<nat>, held: map<nat, int>, released: seq<nat>, waiting: set<int>)

  const START := State(Queue([false, false, false, false, false], 0, 0), [], map[], [], {})

  /** What a thread does while it has the mutex: a turn of the waiting loop, the release of one of its
      allocations, or of a block from elsewhere. */
  datatype Step = Ask(thread: int) | GiveBack(thread: int, allocation: nat) | GiveStray(thread: int)

  predicate WellFormed(s: State) {
    |s.q.inUse| == QUEUE_SIZE && s.q.head < QUEUE_SIZE && s.q.tail < QUEUE_SIZE
    && forall k | k in s.held :: k < |s.slots| && s.slots[k] < QUEUE_SIZE
  }

  /** Clients release only what they hold. */
  predicate Allowed(s: State, step: Step) {
    step.GiveBack? ==> step.allocation in s.held && s.held[step.allocation] == step.thread
  }

  function Next(s: State, step: Step): State
    requires WellFormed(s) && Allowed(s, step)
  {
    match step
    case Ask(thread) =>
      if Available(s.q) then
        State(Taken(s.q), s.slots + [s.q.head], s.held[|s.slots| := thread], s.released, s.waiting - {thread})
      else s.(waiting := s.waiting + {thread})
    case GiveBack(thread, k) =>
      s.(q := Returned(s.q, s.slots[k]), held := s.held - {k}, released := s.released + [k])
    case GiveStray(thread) => s
  }

  /** The slot of the k-th allocation, and how many releases moved the tail there. */
  function Slot(k: nat): (i: nat)
    ensures i < QUEUE_SIZE
  {
    k % QUEUE_SIZE
  }

  /** The slots of some allocations. */
  function SlotsOf(ks: set<nat>): set<nat> {
    set k | k in ks :: Slot(k)
  }

  /** What every interleaving keeps: allocations go round the slots, the blocks in use are those that are
      held, only allocations of the last round are held, and what is not held was released. */
  ghost predicate Inv(s: State) {
    && WellFormed(s)
    && s.q.head == Slot(|s.slots|) && s.q.tail == Slot(|s.released|)
    && (forall k | 0 <= k < |s.slots| :: s.slots[k] == Slot(k))
    && (forall k | k in s.held :: |s.slots| <= k + QUEUE_SIZE)
    && (forall i | 0 <= i < QUEUE_SIZE :: s.q.inUse[i] <==> i in SlotsOf(s.held.Keys))
    && (forall k | 0 <= k < |s.slots| :: k in s.held <==> k !in s.released)
    && (forall j | 0 <= j < |s.released| :: s.released[j] < |s.slots|)
  }

  /** Every allocation is held, or was released once. */
  predicate Counted(s: State) {
    |s.held| + |s.released| == |s.slots|
  }

  lemma SameSlot(k: nat, l: nat)
    requires k < l && Slot(k) == Slot(l)
    ensures l >= k + QUEUE_SIZE
  {}

  lemma OnceAround(k: nat)
    ensures Slot(k + QUEUE_SIZE) == Slot(k)
  {}

  lemma NextSlot(k: nat)
    ensures Slot(k + 1) == Succ(Slot(k))
  {}

  /** The k-th allocation is the k-th slot, round and round. */
  lemma SlotAt(s: State, k: nat)
    requires Inv(s) && k < |s.slots|
    ensures s.slots[k] == Slot(k)
  {}

  /** What is held, and where. */
  lemma HeldAt(s: State, k: nat)
    requires Inv(s) && k in s.held
    ensures k < |s.slots| <= k + QUEUE_SIZE && s.slots[k] == Slot(k) && s.q.inUse[Slot(k)]
  {
    hide Slot, Succ;
    assert Slot(k) in SlotsOf(s.held.Keys);
  }

  /** No block is held twice. */
  lemma HeldOnce(s: State, k: nat, l: nat)
    requires Inv(s) && k in s.held && l in s.held && k != l
    ensures s.slots[k] != s.slots[l]
  {
    hide Slot, Succ;
    HeldAt(s, k);
    HeldAt(s, l);
    if Slot(k) == Slot(l) {
      if k < l { SameSlot(k, l); } else { SameSlot(l, k); }
    }
  }

  /** A block is handed out again only after it was released: of its allocations only the last can be held. */
  lemma ReusedAfterRelease(s: State, k: nat, l: nat)
    requires Inv(s) && k < l < |s.slots| && s.slots[k] == s.slots[l]
    ensures k !in s.held
  {
    hide Slot, Succ;
    SlotAt(s, k);
    SlotAt(s, l);
    if k in s.held {
      HeldAt(s, k);
      SameSlot(k, l);
    }
  }

  /** When the block at the head is free, the allocation that had it last is not held. */
  lemma OldestIsGone(s: State, k: nat)
    requires Inv(s) && k in s.held && Available(s.q)
    ensures |s.slots| < k + QUEUE_SIZE
  {
    hide Slot, Succ;
    HeldAt(s, k);
    OnceAround(k);
  }

  lemma AskKeeps(s: State, thread: int)
    requires Inv(s) && Available(s.q)
    ensures Inv(Next(s, Ask(thread)))
  {
    hide Slot, Succ, SlotsOf;
    var s' := Next(s, Ask(thread));
    var n := |s.slots|;
    NextSlot(n);
    HeldMore(s.held, n, thread);
    SlotsMore(s.held.Keys, n);
    forall k | k in s'.held ensures k < |s'.slots| <= k + QUEUE_SIZE && s'.slots[k] < QUEUE_SIZE {
      if k != n {
        OldestIsGone(s, k);
        HeldAt(s, k);
        assert s'.slots[k] == s.slots[k];
      } else {
        assert s'.slots[n] == s.q.head;
      }
    }
    forall i | 0 <= i < QUEUE_SIZE ensures s'.q.inUse[i] <==> i in SlotsOf(s'.held.Keys) {
      assert s'.q.inUse[i] == (i == s.q.head || s.q.inUse[i]);
    }
  }

  lemma HeldMore(held: map<nat, int>, n: nat, thread: int)
    requires n !in held
    ensures held[n := thread].Keys == held.Keys + {n}
  {}

  lemma HeldLess(held: map<nat, int>, n: nat)
    requires n in held
    ensures held.Keys == (held - {n}).Keys + {n}
  {
    assert held == (held - {n})[n := held[n]];
  }

  lemma SlotsMore(ks: set<nat>, n: nat)
    ensures SlotsOf(ks + {n}) == SlotsOf(ks) + {Slot(n)}
  {}

  lemma GiveBackKeeps(s: State, thread: int, k: nat)
    requires Inv(s) && Allowed(s, GiveBack(thread, k))
    ensures Inv(Next(s, GiveBack(thread, k)))
  {
    hide Slot, Succ;
    var s' := Next(s, GiveBack(thread, k));
    NextSlot(|s.released|);
    SlotAt(s, k);
    HeldLess(s.held, k);
    SlotsMore(s'.held.Keys, k);
    assert Slot(k) !in SlotsOf(s'.held.Keys) by {
      forall l | l in s'.held ensures Slot(l) != Slot(k) {
        HeldOnce(s, k, l);
        SlotAt(s, l);
      }
    }
    hide SlotsOf;
    assert WellFormed(s');
    assert s'.q.head == Slot(|s'.slots|) && s'.q.tail == Slot(|s'.released|);
    assert forall k | 0 <= k < |s'.slots| :: s'.slots[k] == Slot(k);
    assert forall i | 0 <= i < QUEUE_SIZE :: s'.q.inUse[i] <==> i in SlotsOf(s'.held.Keys);
  }

  lemma StepKeeps(s: State, step: Step)
    requires Inv(s) && Allowed(s, step)
    ensures Inv(Next(s, step))
  {
    match step
    case Ask(thread) =>
      if Available(s.q) {
        AskKeeps(s, thread);
      }
    case GiveBack(thread, k) =>
      GiveBackKeeps(s, thread, k);
    case GiveStray(_) =>
  }

  lemma StepCounts(s: State, step: Step)
    requires Inv(s) && Counted(s) && Allowed(s, step)
    ensures Counted(Next(s, step))
  {
    hide Slot, Succ;
    var s' := Next(s, step);
    match step
    case Ask(thread) =>
      if Available(s.q) {
        assert |s.slots| !in s.held;
      }
    case GiveBack(thread, k) =>
      assert s.held == s'.held[k := thread];
    case GiveStray(_) =>
  }

  /** Runs of allowed steps. */
  predicate Run(s: State, steps: seq<Step>)
    requires WellFormed(s)
    decreases |steps|
  {
    steps == [] || (Allowed(s, steps[0]) && WellFormed(Next(s, steps[0])) && Run(Next(s, steps[0]), steps[1..]))
  }

  function After(s: State, steps: seq<Step>): (r: State)
    requires WellFormed(s) && Run(s, steps)
    ensures WellFormed(r)
    decreases |steps|
  {
    if steps == [] then s else After(Next(s, steps[0]), steps[1..])
  }

  lemma {:induction false} RunKeeps(s: State, steps: seq<Step>)
    requires Inv(s) && Counted(s) && Run(s, steps)
    ensures Inv(After(s, steps)) && Counted(After(s, steps))
    decreases |steps|
  {
    if steps != [] {
      StepKeeps(s, steps[0]);
      StepCounts(s, steps[0]);
      RunKeeps(Next(s, steps[0]), steps[1..]);
    }
  }

  lemma StartKeeps()
    ensures Inv(START) && Counted(START)
  {}

  /** Over every interleaving of clients that release only what they hold: the k-th allocation is slot k modulo
      the size of the queue, no block is held twice, and none is handed out while it is held. */
  lemma Ownership(steps: seq<Step>, k: nat, l: nat)
    requires Run(START, steps)
    ensures var s := After(START, steps);
      && (k < |s.slots| ==> s.slots[k] == k % QUEUE_SIZE)
      && (k in s.held && l in s.held && k != l ==> l < |s.slots| && k < |s.slots| && s.slots[k] != s.slots[l])
      && (k < l < |s.slots| && s.slots[k] == s.slots[l] ==> k !in s.held && k in s.released)
  {
    StartKeeps();
    RunKeeps(START, steps);
    var s := After(START, steps);
    if k in s.held && l in s.held && k != l {
      HeldOnce(s, k, l);
    }
    if k < l < |s.slots| && s.slots[k] == s.slots[l] {
      ReusedAfterRelease(s, k, l);
    }
  }

  // ----- release in order -----

  /** What is released is older than what is held. */
  ghost predicate OldestFirst(s: State) {
    forall k, l | k in s.held && l in s.released :: l < k
  }

  /** A slot some way behind another, round the end. */
  function Ahead(i: nat, j: nat): nat {
    (i + j) % QUEUE_SIZE
  }

  /** So many slots from the tail on. */
  function Range(tail: nat, n: nat): set<nat> {
    set j | 0 <= j < n :: Ahead(tail, j)
  }

  lemma SlotFrom(r: nat, j: nat)
    ensures Ahead(Slot(r), j) == Slot(r + j)
  {}

  lemma RangeOfSlots(ks: set<nat>, r: nat, n: nat)
    requires forall k :: k in ks <==> r <= k < r + n
    ensures SlotsOf(ks) == Range(Slot(r), n)
  {
    hide Slot, Ahead;
    forall k | k in ks ensures Slot(k) in Range(Slot(r), n) {
      SlotFrom(r, k - r);
      assert Ahead(Slot(r), k - r) in Range(Slot(r), n);
    }
    forall j | 0 <= j < n ensures Ahead(Slot(r), j) in SlotsOf(ks) {
      SlotFrom(r, j);
      assert r + j in ks;
    }
  }

  function Interval(a: nat, b: nat): (r: set<nat>)
    ensures forall k :: k in r <==> a <= k < b
    decreases b
  {
    if b <= a then {} else Interval(a, b - 1) + {b - 1}
  }

  lemma {:induction false} IntervalSize(a: nat, b: nat)
    requires a <= b
    ensures |Interval(a, b)| == b - a
    decreases b - a
  {
    if a < b {
      IntervalSize(a, b - 1);
    }
  }

  lemma SubsetSize(xs: set<nat>, ys: set<nat>)
    requires xs <= ys
    ensures |xs| <= |ys| && (|xs| == |ys| ==> xs == ys)
  {
    assert ys == xs + (ys - xs);
    assert |ys| == |xs| + |ys - xs|;
  }

  lemma HeldWindow(s: State)
    requires Inv(s) && Counted(s)
    ensures |s.held| <= QUEUE_SIZE && s.held.Keys <= Interval(|s.released|, |s.slots|) ==>
      s.held.Keys == Interval(|s.released|, |s.slots|)
    ensures |s.held| <= QUEUE_SIZE && |s.released| <= |s.slots|
  {
    var n := |s.slots|;
    var from := if n <= QUEUE_SIZE then 0 else n - QUEUE_SIZE;
    IntervalSize(from, n);
    SubsetSize(s.held.Keys, Interval(from, n));
    assert |s.held.Keys| == |s.held|;
    IntervalSize(|s.released|, n);
    if s.held.Keys <= Interval(|s.released|, n) {
      SubsetSize(s.held.Keys, Interval(|s.released|, n));
    }
  }

  /** The oldest are released first exactly if the held allocations are the last ones. */
  lemma OldestFirstHeld(s: State)
    requires Inv(s) && Counted(s)
    ensures |s.released| <= |s.slots|
    ensures OldestFirst(s) <==> s.held.Keys == Interval(|s.released|, |s.slots|)
  {
    HeldWindow(s);
    var r, n := |s.released|, |s.slots|;
    assert |s.held.Keys| == |s.held|;
    if OldestFirst(s) {
      forall k | k in s.held ensures k >= r {
        IntervalSize(k, n);
        assert Interval(k, n) <= s.held.Keys;
        SubsetSize(Interval(k, n), s.held.Keys);
      }
    }
    if s.held.Keys == Interval(r, n) {
      forall k, l | k in s.held && l in s.released ensures l < k {
        assert l !in s.held;
      }
    }
  }

  /** The blocks in use are those from the tail up to the head exactly if the oldest are released first. */
  lemma InUseFromTailToHead(s: State)
    requires Inv(s) && Counted(s)
    ensures |s.released| <= |s.slots| <= |s.released| + QUEUE_SIZE
    ensures var n := |s.slots| - |s.released|;
      && s.q.head == Ahead(s.q.tail, n)
      && ((forall i | 0 <= i < QUEUE_SIZE :: s.q.inUse[i] <==> i in Range(s.q.tail, n)) <==> OldestFirst(s))
  {
    hide Slot, Ahead;
    HeldWindow(s);
    OldestFirstHeld(s);
    var r, n := |s.released|, |s.slots|;
    SlotFrom(r, n - r);
    if s.held.Keys == Interval(r, n) {
      RangeOfSlots(s.held.Keys, r, n - r);
    }
    if forall i | 0 <= i < QUEUE_SIZE :: s.q.inUse[i] <==> i in Range(s.q.tail, n - r) {
      forall k | k in s.held ensures k >= r {
        HeldAt(s, k);
        HeldInRange(s, k);
      }
    }
  }

  lemma HeldInRange(s: State, k: nat)
    requires Inv(s) && k in s.held && |s.released| <= |s.slots| <= |s.released| + QUEUE_SIZE
    requires Slot(k) in Range(s.q.tail, |s.slots| - |s.released|)
    ensures k >= |s.released|
  {
    hide Slot, Ahead;
    var r := |s.released|;
    HeldAt(s, k);
    var j :| 0 <= j < |s.slots| - r && Ahead(s.q.tail, j) == Slot(k);
    SlotFrom(r, j);
    if k < r + j {
      SameSlot(k, r + j);
    }
  }

  /** Not so when a block is released before an older one. */
  lemma OutOfOrder() returns (steps: seq<Step>)
    ensures Run(START, steps)
    ensures var s := After(START, steps);
      |s.slots| == 2 && |s.released| == 1 && s.q.inUse[0] && 0 !in Range(s.q.tail, 1)
  {
    steps := [Ask(0), Ask(0), GiveBack(0, 1)];
    var s1 := Next(START, Ask(0));
    var s2 := Next(s1, Ask(0));
    var s3 := Next(s2, GiveBack(0, 1));
    assert steps[1..] == [Ask(0), GiveBack(0, 1)] && steps[1..][1..] == [GiveBack(0, 1)] && steps[1..][1..][1..] == [];
    assert Run(s3, []) && Run(s2, [GiveBack(0, 1)]) && Run(s1, steps[1..]);
    assert After(START, steps) == s3;
  }
}
