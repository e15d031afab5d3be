/** The store of dictionary.c: three parallel arrays with holes refine a map. A string that may be NULL is
    an `Option<string>`. */
module IniDictionary {

  datatype Option<+T> = None | Some(value: T)

  /** The answer to a query: the default that the caller passed, or what is stored, which may be NULL. */
  datatype Answer = Default | Stored(val: Option<string>)

  const DICTMINSZ := 128

  // ----- the hash -----

  /** `(unsigned)key[i]`: a plain char is signed, so its upper half extends to the left. */
  function Widened(c: char): bv32 {
    var b := c as int % 256;
    if b < 128 then b as bv32 else (0xFFFF_FF00 + b) as bv32
  }

  function Mixed(h: bv32, c: char): bv32 {
    var h1 := h + Widened(c);
    var h2 := h1 + (h1 << 10);
    h2 ^ (h2 >> 6)
  }

  function MixedAll(key: string): bv32 {
    if key == "" then 0 else Mixed(MixedAll(key[..|key| - 1]), key[|key| - 1])
  }

  function Finished(h: bv32): bv32 {
    var h1 := h + (h << 3);
    var h2 := h1 ^ (h1 >> 11);
    h2 + (h2 << 15)
  }

  function Hash(key: string): bv32 {
    Finished(MixedAll(key))
  }

  /** Known values of the one-at-a-time hash. */
  lemma HashOf()
    ensures Hash("") == 0 && Hash("a") == 0xca2e9442
  {
    MixedLetter();
    FinishedLetter();
    hide Mixed;
    assert "a"[..0] == "" && MixedAll("a") == Mixed(0, 'a');
  }

  lemma WidenedLetter()
    ensures Widened('a') == 97
  {
    var b := 97;
    assert b as bv32 == 97;
  }

  lemma MixedLetter()
    ensures Mixed(0, 'a') == 0x18270
  {
    WidenedLetter();
    hide Widened;
  }

  lemma FinishedLetter()
    ensures Finished(0x18270) == 0xca2e9442 && Finished(0) == 0
  {}

  method ComputeHash(key: string) returns (hash: bv32)
    ensures hash == Hash(key)
  {
    hide Mixed, Finished;
    hash := 0;
    var i := 0;
    while i < |key|
      invariant i <= |key| && hash == MixedAll(key[..i])
    {
      assert key[..i + 1][..i] == key[..i];
      hash := Mixed(hash, key[i]);
      i := i + 1;
    }
    assert key[..i] == key;
    hash := Finished(hash);
  }

  // ----- slots -----

  function Find(keys: seq<Option<string>>, k: string): (r: nat)
    ensures r <= |keys| && (r < |keys| ==> keys[r] == Some(k))
    ensures forall j | 0 <= j < r :: keys[j] != Some(k)
  {
    if keys == [] then 0 else if keys[0] == Some(k) then 0 else Find(keys[1..], k) + 1
  }

  /** The number of keys. */
  function Count(keys: seq<Option<string>>): nat {
    if keys == [] then 0 else (if keys[0].Some? then 1 else 0) + Count(keys[1..])
  }

  predicate Distinct(keys: seq<Option<string>>) {
    forall i, j | 0 <= i < j < |keys| && keys[i].Some? :: keys[i] != keys[j]
  }

  function KeySet(keys: seq<Option<string>>): set<string> {
    set i | 0 <= i < |keys| && keys[i].Some? :: keys[i].value
  }

  /** The map that the slots stand for. */
  function Contents(keys: seq<Option<string>>, vals: seq<Option<string>>): map<string, Option<string>>
    requires |keys| == |vals|
  {
    map k | k in KeySet(keys) :: if Find(keys, k) < |keys| then vals[Find(keys, k)] else None
  }

  lemma {:induction false} CountBound(keys: seq<Option<string>>)
    ensures Count(keys) <= |keys|
    ensures Count(keys) < |keys| <==> exists i :: 0 <= i < |keys| && keys[i].None?
  {
    if keys != [] {
      CountBound(keys[1..]);
      if i :| 0 <= i < |keys| && keys[i].None? {
        assert i > 0 ==> keys[1..][i - 1].None?;
      }
    }
  }

  lemma {:induction false} CountUpdate(keys: seq<Option<string>>, i: nat, k: Option<string>)
    requires i < |keys|
    ensures Count(keys[i := k]) == Count(keys) - (if keys[i].Some? then 1 else 0) + (if k.Some? then 1 else 0)
  {
    if i > 0 {
      CountUpdate(keys[1..], i - 1, k);
      assert keys[i := k][1..] == keys[1..][i - 1 := k];
    } else {
      assert keys[i := k][1..] == keys[1..];
    }
  }

  lemma {:induction false} NoKeys(keys: seq<Option<string>>, i: nat)
    requires i < |keys| && keys[i].Some?
    ensures Count(keys) > 0
  {
    if i > 0 {
      NoKeys(keys[1..], i - 1);
    }
  }

  function Nones(n: nat): seq<Option<string>> {
    seq(n, _ => None)
  }

  lemma {:induction false} CountNones(keys: seq<Option<string>>, m: nat)
    ensures Count(keys + Nones(m)) == Count(keys)
  {
    if keys != [] {
      CountNones(keys[1..], m);
      assert (keys + Nones(m))[1..] == keys[1..] + Nones(m);
    } else if m > 0 {
      CountNones([], m - 1);
      assert [] + Nones(m) == Nones(m) && Nones(m)[1..] == Nones(m - 1) == [] + Nones(m - 1);
    } else {
      assert [] + Nones(m) == [];
    }
  }

  /** The slot of a key is its only one, so it holds the value of the key. */
  lemma SlotOf(keys: seq<Option<string>>, vals: seq<Option<string>>, i: nat)
    requires |keys| == |vals| && Distinct(keys) && i < |keys| && keys[i].Some?
    ensures var m := Contents(keys, vals); keys[i].value in m && m[keys[i].value] == vals[i]
    ensures Find(keys, keys[i].value) == i
  {
    var r := Find(keys, keys[i].value);
    assert r <= i;
  }

  lemma ContentsAt(keys: seq<Option<string>>, vals: seq<Option<string>>, k: string)
    requires |keys| == |vals|
    ensures k in Contents(keys, vals) <==> Find(keys, k) < |keys|
    ensures Find(keys, k) < |keys| ==> Contents(keys, vals)[k] == vals[Find(keys, k)]
  {
    if Find(keys, k) < |keys| {
      assert keys[Find(keys, k)].value in KeySet(keys);
    }
  }

  /** Maps of slots are equal if they have the same keys in slots with the same values. */
  lemma SameContents(keys: seq<Option<string>>, vals: seq<Option<string>>, m: map<string, Option<string>>)
    requires |keys| == |vals| && Distinct(keys)
    requires forall i | 0 <= i < |keys| && keys[i].Some? :: keys[i].value in m && m[keys[i].value] == vals[i]
    requires forall k | k in m :: exists i :: 0 <= i < |keys| && keys[i] == Some(k)
    ensures Contents(keys, vals) == m
  {
    var c := Contents(keys, vals);
    forall k | k in c ensures k in m && c[k] == m[k] {
      ContentsAt(keys, vals, k);
    }
    forall k | k in m ensures k in c {
      var i :| 0 <= i < |keys| && keys[i] == Some(k);
      SlotOf(keys, vals, i);
    }
  }

  lemma ContentsUpdate(keys: seq<Option<string>>, vals: seq<Option<string>>, i: nat, v: Option<string>)
    requires |keys| == |vals| && Distinct(keys) && i < |keys| && keys[i].Some?
    ensures Contents(keys, vals[i := v]) == Contents(keys, vals)[keys[i].value := v]
  {
    hide Contents, Find;
    var m := Contents(keys, vals)[keys[i].value := v];
    forall j | 0 <= j < |keys| && keys[j].Some? ensures keys[j].value in m && m[keys[j].value] == vals[i := v][j] {
      SlotOf(keys, vals, j);
    }
    forall k | k in m ensures exists j :: 0 <= j < |keys| && keys[j] == Some(k) {
      ContentsAt(keys, vals, k);
      if k == keys[i].value {
        assert keys[i] == Some(k);
      } else {
        assert keys[Find(keys, k)] == Some(k);
      }
    }
    SameContents(keys, vals[i := v], m);
  }

  lemma ContentsInsert(keys: seq<Option<string>>, vals: seq<Option<string>>, i: nat, k: string, v: Option<string>)
    requires |keys| == |vals| && Distinct(keys) && i < |keys| && keys[i].None? && k !in Contents(keys, vals)
    ensures Distinct(keys[i := Some(k)])
    ensures Contents(keys[i := Some(k)], vals[i := v]) == Contents(keys, vals)[k := v]
  {
    hide Contents, Find;
    var keys', vals' := keys[i := Some(k)], vals[i := v];
    var m := Contents(keys, vals)[k := v];
    ContentsAt(keys, vals, k);
    assert forall j | 0 <= j < |keys| :: keys[j] != Some(k);
    forall j | 0 <= j < |keys| && keys'[j].Some? ensures keys'[j].value in m && m[keys'[j].value] == vals'[j] {
      if j != i { SlotOf(keys, vals, j); }
    }
    forall x | x in m ensures exists j :: 0 <= j < |keys| && keys'[j] == Some(x) {
      if x == k {
        assert keys'[i] == Some(x);
      } else {
        ContentsAt(keys, vals, x);
        assert keys'[Find(keys, x)] == Some(x);
      }
    }
    SameContents(keys', vals', m);
  }

  lemma ContentsRemove(keys: seq<Option<string>>, vals: seq<Option<string>>, i: nat)
    requires |keys| == |vals| && Distinct(keys) && i < |keys| && keys[i].Some?
    ensures Distinct(keys[i := None])
    ensures Contents(keys[i := None], vals[i := None]) == Contents(keys, vals) - {keys[i].value}
  {
    hide Contents, Find;
    var keys', vals' := keys[i := None], vals[i := None];
    var m := Contents(keys, vals) - {keys[i].value};
    forall j | 0 <= j < |keys| && keys'[j].Some? ensures keys'[j].value in m && m[keys'[j].value] == vals'[j] {
      SlotOf(keys, vals, j);
    }
    forall x | x in m ensures exists j :: 0 <= j < |keys| && keys'[j] == Some(x) {
      ContentsAt(keys, vals, x);
      assert keys'[Find(keys, x)] == Some(x);
    }
    SameContents(keys', vals', m);
  }

  lemma ContentsGrow(keys: seq<Option<string>>, vals: seq<Option<string>>, m: nat)
    requires |keys| == |vals| && Distinct(keys)
    ensures Distinct(keys + Nones(m))
    ensures Contents(keys + Nones(m), vals + Nones(m)) == Contents(keys, vals)
  {
    hide Contents, Find;
    var keys', vals' := keys + Nones(m), vals + Nones(m);
    forall j | 0 <= j < |keys'| && keys'[j].Some?
      ensures keys'[j].value in Contents(keys, vals) && Contents(keys, vals)[keys'[j].value] == vals'[j]
    {
      SlotOf(keys, vals, j);
    }
    forall x | x in Contents(keys, vals) ensures exists j :: 0 <= j < |keys'| && keys'[j] == Some(x) {
      ContentsAt(keys, vals, x);
      assert keys'[Find(keys, x)] == Some(x);
    }
    SameContents(keys', vals', Contents(keys, vals));
  }

  lemma KeySetStep(keys: seq<Option<string>>)
    requires keys != []
    ensures KeySet(keys) == (if keys[0].Some? then {keys[0].value} else {}) + KeySet(keys[1..])
  {
    var tail := keys[1..];
    forall k | k in KeySet(keys) && Some(k) != keys[0] ensures k in KeySet(tail) {
      var j :| 0 <= j < |keys| && keys[j].Some? && keys[j].value == k;
      assert tail[j - 1] == keys[j];
    }
    forall k | k in KeySet(tail) ensures k in KeySet(keys) {
      var j :| 0 <= j < |tail| && tail[j].Some? && tail[j].value == k;
      assert keys[j + 1] == tail[j];
    }
  }

  lemma FirstIsNew(keys: seq<Option<string>>)
    requires keys != [] && keys[0].Some? && Distinct(keys)
    ensures keys[0].value !in KeySet(keys[1..])
  {
    forall j | 0 <= j < |keys[1..]| ensures keys[1..][j] != keys[0] {
      assert keys[1..][j] == keys[j + 1];
    }
  }

  /** The number of entries of the map is the number of keys. */
  lemma {:induction false} CountContents(keys: seq<Option<string>>)
    requires Distinct(keys)
    ensures |KeySet(keys)| == Count(keys)
  {
    if keys == [] {
      assert KeySet(keys) == {};
    } else {
      assert Distinct(keys[1..]);
      CountContents(keys[1..]);
      KeySetStep(keys);
      if keys[0].Some? {
        FirstIsNew(keys);
      }
      hide KeySet;
    }
  }

  // ----- the store -----

  class Dictionary {
    var n: nat
    var size: nat
    var val: array<Option<string>>
    var key: array<Option<string>>
    var hash: array<bv32>

    ghost predicate Valid()
      reads this, key, val, hash
    {
      && DICTMINSZ <= size == key.Length == val.Length == hash.Length
      && key != val && key as object != hash && val as object != hash
      && n == Count(key[..]) && Distinct(key[..])
      && (forall i | 0 <= i < size && key[i].Some? :: hash[i] == Hash(key[i].value))
      && (forall i | 0 <= i < size && key[i].None? :: val[i].None?)
    }

    ghost function Map(): map<string, Option<string>>
      requires Valid()
      reads this, key, val, hash
    {
      Contents(key[..], val[..])
    }

    /** `dictionary_new` */
    constructor (initial: nat)
      ensures Valid() && Map() == map[] && n == 0 && fresh(key) && fresh(val) && fresh(hash)
      ensures size == if initial < DICTMINSZ then DICTMINSZ else initial
    {
      var s := if initial < DICTMINSZ then DICTMINSZ else initial;
      n, size := 0, s;
      val := new Option<string>[s](_ => None);
      key := new Option<string>[s](_ => None);
      hash := new bv32[s](_ => 0);
      new;
      assert key[..] == [] + Nones(size) && val[..] == [] + Nones(size);
      CountNones([], size);
      ContentsGrow([], [], size);
      assert Contents([], []) == map[];
    }

    /** The scan that `get`, `set` and `unset` share: hashes first, then the keys themselves. */
    method Search(k: string) returns (i: nat)
      requires Valid()
      ensures i == Find(key[..], k)
    {
      hide Hash, Count;
      var h := ComputeHash(k);
      i := 0;
      while i < size
        invariant i <= size && forall j | 0 <= j < i :: key[j] != Some(k)
      {
        if key[i].Some? && h == hash[i] && key[i].value == k {
          break;
        }
        i := i + 1;
      }
    }

    /** `dictionary_get` */
    method Get(k: Option<string>) returns (a: Answer)
      requires Valid()
      ensures a == if k.Some? && k.value in Map() then Stored(Map()[k.value]) else Default
    {
      if k.None? {
        return Default;
      }
      var i := Search(k.value);
      ContentsAt(key[..], val[..], k.value);
      a := if i < size then Stored(val[i]) else Default;
    }

    /** `dictionary_grow` */
    method Grow()
      requires Valid()
      modifies this
      ensures Valid() && Map() == old(Map()) && n == old(n) && size == 2 * old(size)
      ensures fresh(key) && fresh(val) && fresh(hash)
      ensures key[..] == old(key[..]) + Nones(old(size))
    {
      hide Hash, Count, Contents, Distinct;
      CountNones(key[..], size);
      ContentsGrow(key[..], val[..], size);
      var newVal := new Option<string>[size * 2](_ => None);
      var newKey := new Option<string>[size * 2](_ => None);
      var newHash := new bv32[size * 2](_ => 0);
      forall i | 0 <= i < size {
        newVal[i] := val[i];
      }
      forall i | 0 <= i < size {
        newKey[i] := key[i];
      }
      forall i | 0 <= i < size {
        newHash[i] := hash[i];
      }
      assert newVal[..] == old(val[..]) + Nones(size) && newKey[..] == old(key[..]) + Nones(size);
      size := size * 2;
      val, key, hash := newVal, newKey, newHash;
    }

    /** The wrapping probe from `n`: while there is a hole, it ends at the first one on its way. */
    method Probe() returns (i: nat)
      requires Valid() && n < size
      ensures i < size && key[i].None?
      ensures forall j | n <= j < if i < n then size else i :: key[j].Some?
      ensures i < n ==> forall j | 0 <= j < i :: key[j].Some?
    {
      hide Hash, Distinct;
      CountBound(key[..]);
      ghost var hole :| 0 <= hole < size && key[hole].None?;
      i := n;
      while key[i].Some?
        invariant i < size
        invariant forall j | n <= j < if i < n then size else i :: key[j].Some?
        invariant i < n ==> forall j | 0 <= j < i :: key[j].Some?
        invariant if i < n then hole < n else n <= hole ==> i <= hole
        decreases if i <= hole then hole - i else hole + size - i
      {
        i := i + 1;
        if i == size {
          i := 0;
        }
      }
    }

    /** `dictionary_set` */
    method Set(k: Option<string>, v: Option<string>) returns (r: int)
      requires Valid()
      modifies this, key, val, hash
      ensures Valid() && r == if k.None? then -1 else 0
      ensures Map() == if k.None? then old(Map()) else old(Map())[k.value := v]
      ensures size == if k.Some? && k.value !in old(Map()) && old(n) == old(size) then 2 * old(size) else old(size)
      ensures key == old(key) || fresh(key)
      ensures val == old(val) || fresh(val)
      ensures hash == old(hash) || fresh(hash)
    {
      if k.None? {
        return -1;
      }
      r := 0;
      if n > 0 {
        var i := Search(k.value);
        if i < size {
          Overwrite(i, v);
          return;
        }
      }
      Absent(k.value);
      CountBound(key[..]);
      if n == size {
        Grow();
      }
      var i := Probe();
      Insert(i, k.value, v);
    }

    lemma Absent(k: string)
      requires Valid() && (n == 0 || Find(key[..], k) == |key[..]|)
      ensures k !in Map()
    {
      ContentsAt(key[..], val[..], k);
      if Find(key[..], k) < |key[..]| {
        NoKeys(key[..], Find(key[..], k));
      }
    }

    /** The value of a key that is there already. */
    method Overwrite(i: nat, v: Option<string>)
      requires Valid() && i < size && key[i].Some?
      modifies val
      ensures Valid() && Map() == old(Map())[key[i].value := v]
      ensures val[..] == old(val[..])[i := v]
    {
      hide Hash, Count, Contents, Distinct;
      ContentsUpdate(key[..], val[..], i, v);
      val[i] := v;
      assert val[..] == old(val[..])[i := v] && key[..] == old(key[..]);
    }

    /** A new entry in a hole. */
    method Insert(i: nat, k: string, v: Option<string>)
      requires Valid() && i < size && key[i].None? && k !in Map()
      modifies this`n, key, val, hash
      ensures Valid() && Map() == old(Map())[k := v]
      ensures key[..] == old(key[..])[i := Some(k)] && val[..] == old(val[..])[i := v]
    {
      hide Hash, Count, Contents, Distinct;
      ContentsInsert(key[..], val[..], i, k, v);
      CountUpdate(key[..], i, Some(k));
      var h := ComputeHash(k);
      key[i] := Some(k);
      val[i] := v;
      hash[i] := h;
      n := n + 1;
      assert key[..] == old(key[..])[i := Some(k)] && val[..] == old(val[..])[i := v];
    }

    /** `dictionary_unset` */
    method Unset(k: Option<string>)
      requires Valid()
      modifies this`n, key, val, hash
      ensures Valid() && Map() == if k.None? then old(Map()) else old(Map()) - {k.value}
    {
      hide Hash, Count, Contents, Distinct;
      if k.None? {
        return;
      }
      var i := Search(k.value);
      ContentsAt(key[..], val[..], k.value);
      if i >= size {
        assert Map() - {k.value} == Map();
        return;
      }
      ContentsRemove(key[..], val[..], i);
      CountUpdate(key[..], i, None);
      key[i] := None;
      val[i] := None;
      hash[i] := 0;
      n := n - 1;
      assert key[..] == old(key[..])[i := None] && val[..] == old(val[..])[i := None];
    }

    /** `n` counts the entries of the map. */
    lemma Size()
      requires Valid()
      ensures n == |Map()|
    {
      CountContents(key[..]);
      assert Map().Keys == KeySet(key[..]);
      assert |Map()| == |Map().Keys|;
    }
  }

  // ----- runs -----

  datatype Request =
    | Put(k: Option<string>, v: Option<string>)
    | Remove(k: Option<string>)
    | Query(k: Option<string>)

  /** What a plain map does on a request. */
  function After(m: map<string, Option<string>>, q: Request): map<string, Option<string>> {
    match q
    case Put(Some(k), v) => m[k := v]
    case Remove(Some(k)) => m - {k}
    case _ => m
  }

  function AfterAll(m: map<string, Option<string>>, qs: seq<Request>): map<string, Option<string>> {
    if qs == [] then m else After(AfterAll(m, qs[..|qs| - 1]), qs[|qs| - 1])
  }

  /** What a plain map answers to the queries among the requests. */
  function Answers(m: map<string, Option<string>>, qs: seq<Request>): seq<Answer> {
    if qs == [] then []
    else
      var q := qs[|qs| - 1];
      var before := AfterAll(m, qs[..|qs| - 1]);
      Answers(m, qs[..|qs| - 1]) +
        if q.Query? then [if q.k.Some? && q.k.value in before then Stored(before[q.k.value]) else Default] else []
  }

  /** Over any run of requests, the store answers like a map. */
  method Run(d: Dictionary, qs: seq<Request>) returns (answers: seq<Answer>)
    requires d.Valid()
    modifies d, d.key, d.val, d.hash
    ensures d.Valid() && d.Map() == AfterAll(old(d.Map()), qs) && d.n == |d.Map()|
    ensures answers == Answers(old(d.Map()), qs)
  {
    hide Contents, Count, Distinct, Hash;
    answers := [];
    ghost var m := d.Map();
    var i := 0;
    while i < |qs|
      invariant i <= |qs| && d.Valid() && d.Map() == AfterAll(m, qs[..i]) && answers == Answers(m, qs[..i])
      invariant d.key == old(d.key) || fresh(d.key)
      invariant d.val == old(d.val) || fresh(d.val)
      invariant d.hash == old(d.hash) || fresh(d.hash)
    {
      assert qs[..i + 1][..i] == qs[..i];
      match qs[i] {
        case Put(k, v) =>
          var r := d.Set(k, v);
        case Remove(k) =>
          d.Unset(k);
        case Query(k) =>
          var a := d.Get(k);
          answers := answers + [a];
      }
      i := i + 1;
    }
    assert qs[..i] == qs;
    d.Size();
  }
}
