/** The sections of an ini dictionary and the keys in them. */
module IniSections {

  import opened CString
  import opened IniDictionary
  import opened IniText

  /** `strchr(key, ':') == NULL` */
  predicate IsSection(k: string) {
    ':' !in k
  }

  /** The text before the first colon. */
  function SectionOf(k: string): (s: string)
    ensures ':' !in s && s <= k
    ensures |s| < |k| ==> k[|s|] == ':'
    ensures IsSection(k) ==> s == k
  {
    if k == "" || k[0] == ':' then "" else [k[0]] + SectionOf(k[1..])
  }

  /** The names of sections in the first slots. */
  function Names(keys: seq<Option<string>>, i: nat): seq<string>
    requires i <= |keys|
  {
    if i == 0 then []
    else Names(keys, i - 1) + if keys[i - 1].Some? && IsSection(keys[i - 1].value) then [keys[i - 1].value] else []
  }

  /** `!strncmp(key, keym, ...)` */
  predicate HasPrefix(k: Option<string>, prefix: string) {
    k.Some? && prefix <= k.value
  }

  /** The keys with a prefix in the first slots. */
  function Members(keys: seq<Option<string>>, prefix: string, i: nat): seq<string>
    requires i <= |keys|
  {
    if i == 0 then []
    else Members(keys, prefix, i - 1) + if HasPrefix(keys[i - 1], prefix) then [keys[i - 1].value] else []
  }

  /** What `iniparser_find_entry` looks for. */
  function EntryOf(s: string): string {
    Lower(if |s| <= ASCIILINESZ then s else s[..ASCIILINESZ])
  }

  // ----- the queries -----

  method FindEntry(d: Dictionary, s: string) returns (found: bool)
    requires d.Valid() && NulFree(s)
    ensures found <==> EntryOf(s) in d.Map()
  {
    hide Dictionary.Valid, Dictionary.Map, Lower;
    var a := d.Get(Some(EntryOf(s)));
    found := a != Default;
  }

  method GetNSec(d: Dictionary) returns (nsec: nat)
    requires d.Valid()
    ensures nsec == |Names(d.key[..], d.size)|
  {
    hide Distinct, Count;
    nsec := 0;
    var i := 0;
    while i < d.size
      invariant i <= d.size && nsec == |Names(d.key[..], i)|
    {
      if d.key[i].Some? && IsSection(d.key[i].value) {
        nsec := nsec + 1;
      }
      i := i + 1;
    }
  }

  lemma {:induction false} NamesGrow(keys: seq<Option<string>>, i: nat, j: nat)
    requires i <= j <= |keys|
    ensures Names(keys, i) <= Names(keys, j)
    decreases j
  {
    if i < j {
      NamesGrow(keys, i, j - 1);
    }
  }

  method GetSecName(d: Dictionary, n: int) returns (name: Option<string>)
    requires d.Valid()
    ensures var names := Names(d.key[..], d.size);
      name == if 0 <= n < |names| then Some(names[n]) else None
  {
    hide Distinct, Count;
    if n < 0 {
      return None;
    }
    var found := 0;
    var i := 0;
    while i < d.size
      invariant i <= d.size && found == |Names(d.key[..], i)| <= n
    {
      if d.key[i].Some? && IsSection(d.key[i].value) {
        found := found + 1;
        if found > n {
          NamesGrow(d.key[..], i + 1, d.size);
          assert Names(d.key[..], i + 1)[n] == d.key[i].value;
          return d.key[i];
        }
      }
      i := i + 1;
    }
    name := None;
  }

  /** The prefix that keys are compared with: `keym` is as long as the section, with a colon behind it. */
  method Prefix(s: string) returns (keym: string)
    requires NulFree(s) && |s| <= ASCIILINESZ
    ensures keym == Lower(s) + ":"
  {
    var input := new char[|s| + 1];
    StrCpy(input, 0, s);
    var buffer := new char[ASCIILINESZ + 1];
    LowerInto(input, buffer, ASCIILINESZ + 1, s);
    buffer[|s|] := ':';
    keym := buffer[..|s| + 1];
    assert keym == Lower(s) + ":";
  }

  method GetSecNKeys(d: Dictionary, s: string) returns (nkeys: nat)
    requires d.Valid() && NulFree(s) && |s| <= ASCIILINESZ
    ensures nkeys == if EntryOf(s) in d.Map() then |Members(d.key[..], Lower(s) + ":", d.size)| else 0
  {
    hide Distinct, Count, Contents, Hash;
    nkeys := 0;
    var found := FindEntry(d, s);
    if !found {
      return;
    }
    var keym := Prefix(s);
    var j := 0;
    while j < d.size
      invariant j <= d.size && nkeys == |Members(d.key[..], keym, j)|
    {
      if HasPrefix(d.key[j], keym) {
        nkeys := nkeys + 1;
      }
      j := j + 1;
    }
  }

  /** The keys are filled in from the start of an array that has room for all of them. */
  method GetSecKeys(d: Dictionary, s: string, keys: array<string>) returns (ok: bool)
    requires d.Valid() && NulFree(s) && |s| <= ASCIILINESZ
    requires EntryOf(s) in d.Map() ==> |Members(d.key[..], Lower(s) + ":", d.size)| <= keys.Length
    requires keys as object !in {d.key as object, d.val, d.hash}
    modifies keys
    ensures ok <==> EntryOf(s) in d.Map()
    ensures ok ==> var found := Members(d.key[..], Lower(s) + ":", d.size);
      keys[..|found|] == found && keys[|found|..] == old(keys[|found|..])
    ensures !ok ==> keys[..] == old(keys[..])
  {
    hide Distinct, Count, Contents, Hash;
    ok := FindEntry(d, s);
    if !ok {
      return;
    }
    var keym := Prefix(s);
    ghost var all := d.key[..];
    var i, j := 0, 0;
    while j < d.size
      invariant j <= d.size && d.key[..] == all && i == |Members(all, keym, j)| <= keys.Length
      invariant keys[..i] == Members(all, keym, j) && keys[i..] == old(keys[..])[i..]
    {
      MembersGrow(all, keym, j + 1, d.size);
      if HasPrefix(d.key[j], keym) {
        keys[i] := d.key[j].value;
        i := i + 1;
      }
      j := j + 1;
    }
  }

  lemma {:induction false} MembersGrow(keys: seq<Option<string>>, prefix: string, i: nat, j: nat)
    requires i <= j <= |keys|
    ensures Members(keys, prefix, i) <= Members(keys, prefix, j)
    decreases j
  {
    if i < j {
      MembersGrow(keys, prefix, i, j - 1);
    }
  }

  // ----- the partition -----

  /** The sections are the keys without a colon, each of them once. */
  lemma {:induction false} NamesAreSections(keys: seq<Option<string>>, i: nat)
    requires i <= |keys| && Distinct(keys)
    ensures forall k :: k in Names(keys, i) <==> IsSection(k) && Some(k) in keys[..i]
    ensures forall a, b | 0 <= a < b < |Names(keys, i)| :: Names(keys, i)[a] != Names(keys, i)[b]
  {
    if i > 0 {
      NamesAreSections(keys, i - 1);
      assert keys[..i] == keys[..i - 1] + [keys[i - 1]];
    }
  }

  /** How many keys with a colon there are. */
  function Colons(keys: seq<Option<string>>, i: nat): nat
    requires i <= |keys|
  {
    if i == 0 then 0
    else Colons(keys, i - 1) + if keys[i - 1].Some? && !IsSection(keys[i - 1].value) then 1 else 0
  }

  lemma {:induction false} CountSnoc(keys: seq<Option<string>>, k: Option<string>)
    ensures Count(keys + [k]) == Count(keys) + if k.Some? then 1 else 0
  {
    if keys == [] {
      assert keys + [k] == [k];
    } else {
      CountSnoc(keys[1..], k);
      assert (keys + [k])[1..] == keys[1..] + [k];
    }
  }

  lemma {:induction false} KeysOfBothKinds(keys: seq<Option<string>>, i: nat)
    requires i <= |keys|
    ensures |Names(keys, i)| + Colons(keys, i) == Count(keys[..i])
  {
    if i > 0 {
      KeysOfBothKinds(keys, i - 1);
      CountSnoc(keys[..i - 1], keys[i - 1]);
      assert keys[..i] == keys[..i - 1] + [keys[i - 1]];
    }
  }

  /** The keys of all the sections together, counted as `iniparser_getsecnkeys` does. */
  function KeysOf(keys: seq<Option<string>>, names: seq<string>, i: nat): nat
    requires i <= |keys|
  {
    if names == [] then 0 else |Members(keys, Lower(names[0]) + ":", i)| + KeysOf(keys, names[1..], i)
  }

  /** How many of the sections count a key. */
  function Counted(k: string, names: seq<string>): nat {
    if names == [] then 0 else (if Lower(names[0]) + ":" <= k then 1 else 0) + Counted(k, names[1..])
  }

  lemma {:induction false} KeysOfStep(keys: seq<Option<string>>, names: seq<string>, i: nat)
    requires i < |keys|
    ensures KeysOf(keys, names, i + 1) == KeysOf(keys, names, i) + if keys[i].Some? then Counted(keys[i].value, names) else 0
  {
    if names != [] {
      KeysOfStep(keys, names[1..], i);
    }
  }

  lemma LowerColon(s: string)
    ensures ':' in Lower(s) <==> ':' in s
  {
    if ':' in s {
      var i :| 0 <= i < |s| && s[i] == ':';
      assert Lower(s)[i] == ':';
    } else {
      forall i | 0 <= i < |s| ensures Lower(s)[i] != ':' {
        assert s[i] in s;
      }
    }
  }

  /** A key is counted by the sections whose name, in lower case, stands before its first colon. */
  lemma PrefixIsSection(s: string, k: string)
    requires IsSection(s)
    ensures Lower(s) + ":" <= k <==> !IsSection(k) && Lower(s) == SectionOf(k)
  {
    LowerColon(s);
    var t, u := Lower(s), SectionOf(k);
    if t + ":" <= k {
      assert k[|t|] == ':';
      assert forall i | 0 <= i < |t| :: k[i] == t[i] && t[i] in t;
      assert forall i | 0 <= i < |u| :: k[i] == u[i] && u[i] in u;
      assert |u| == |t|;
      assert t == u;
    }
    if !IsSection(k) && t == u {
      assert |u| < |k|;
    }
  }

  lemma {:induction false} CountedNever(k: string, names: seq<string>)
    requires forall s | s in names :: IsSection(s) && Lower(s) != SectionOf(k)
    ensures Counted(k, names) == 0
  {
    if names != [] {
      PrefixIsSection(names[0], k);
      CountedNever(k, names[1..]);
    }
  }

  /** No other spelling of a key's section is a section. */
  ghost predicate OneSpelling(k: string, names: seq<string>) {
    forall s | s in names :: Lower(s) == SectionOf(k) ==> s == SectionOf(k)
  }

  /** A key whose section is there is counted, and once exactly if its section has one spelling. */
  lemma {:induction false} CountedExactly(k: string, names: seq<string>)
    requires !IsSection(k) && (forall s | s in names :: IsSection(s)) && Lower(SectionOf(k)) == SectionOf(k)
    requires forall a, b | 0 <= a < b < |names| :: names[a] != names[b]
    ensures SectionOf(k) in names ==> Counted(k, names) >= 1 && (Counted(k, names) == 1 <==> OneSpelling(k, names))
    ensures SectionOf(k) !in names ==> (Counted(k, names) == 0 <==> OneSpelling(k, names))
  {
    if names != [] {
      PrefixIsSection(names[0], k);
      CountedExactly(k, names[1..]);
      assert names == [names[0]] + names[1..];
    }
  }

  lemma {:induction false} SectionsAreNotCounted(k: string, names: seq<string>)
    requires IsSection(k) && forall s | s in names :: IsSection(s)
    ensures Counted(k, names) == 0
  {
    if names != [] {
      PrefixIsSection(names[0], k);
      SectionsAreNotCounted(k, names[1..]);
    }
  }

  predicate IsKey(k: Option<string>) {
    k.Some? && !IsSection(k.value)
  }

  /** Every key belongs to a section that is there, in lower case. */
  ghost predicate Sectioned(keys: seq<Option<string>>) {
    forall i | 0 <= i < |keys| && IsKey(keys[i]) ::
      var s := SectionOf(keys[i].value);
      Some(s) in keys && Lower(s) == s
  }

  ghost predicate SpelledOnce(keys: seq<Option<string>>, names: seq<string>, i: nat)
    requires i <= |keys|
  {
    forall j | 0 <= j < i && IsKey(keys[j]) :: OneSpelling(keys[j].value, names)
  }

  /** The section of a key is among the names. */
  lemma SectionIsNamed(keys: seq<Option<string>>, i: nat)
    requires i < |keys| && Distinct(keys) && Sectioned(keys) && IsKey(keys[i])
    ensures var s := SectionOf(keys[i].value); s in Names(keys, |keys|) && Lower(s) == s
  {
    hide Lower, Names;
    NamesAreSections(keys, |keys|);
    assert keys[..|keys|] == keys;
    SectionOfSection(keys[i].value);
  }

  lemma SectionOfSection(k: string)
    ensures IsSection(SectionOf(k))
  {}

  lemma {:induction false} ColonsOfSections(keys: seq<Option<string>>, names: seq<string>, i: nat)
    requires i <= |keys| && Distinct(keys) && Sectioned(keys) && names == Names(keys, |keys|)
    ensures KeysOf(keys, names, i) >= Colons(keys, i)
    ensures KeysOf(keys, names, i) == Colons(keys, i) <==> SpelledOnce(keys, names, i)
  {
    hide OneSpelling, Lower, Counted, KeysOf, Distinct, Sectioned, Names, SectionOf;
    NamesAreSections(keys, |keys|);
    if i == 0 {
      KeysOfNothing(keys, names);
    } else {
      ColonsOfSections(keys, names, i - 1);
      KeysOfStep(keys, names, i - 1);
      if IsKey(keys[i - 1]) {
        SectionIsNamed(keys, i - 1);
        CountedExactly(keys[i - 1].value, names);
      } else if keys[i - 1].Some? {
        SectionsAreNotCounted(keys[i - 1].value, names);
      }
    }
  }

  lemma {:induction false} KeysOfNothing(keys: seq<Option<string>>, names: seq<string>)
    ensures KeysOf(keys, names, 0) == 0
  {
    if names != [] {
      KeysOfNothing(keys, names[1..]);
    }
  }

  /** The sections and their keys are all the entries, each counted once, exactly if the sections that have
      keys are spelled in one way only. */
  lemma Partition(d: Dictionary)
    requires d.Valid() && Sectioned(d.key[..])
    ensures var names := Names(d.key[..], d.size);
      |names| + KeysOf(d.key[..], names, d.size) == d.n <==> SpelledOnce(d.key[..], names, d.size)
  {
    var keys := d.key[..];
    assert keys[..|keys|] == keys;
    KeysOfBothKinds(keys, |keys|);
    ColonsOfSections(keys, Names(keys, |keys|), |keys|);
  }

  /** What `iniparser_getsecnkeys` answers is what is counted here. */
  lemma CountsMembers(d: Dictionary, s: string)
    requires d.Valid() && |s| <= ASCIILINESZ && Sectioned(d.key[..]) && IsSection(s)
    ensures EntryOf(s) !in d.Map() ==> |Members(d.key[..], Lower(s) + ":", d.size)| == 0
  {
    var keys := d.key[..];
    if EntryOf(s) !in d.Map() {
      ContentsAt(keys, d.val[..], Lower(s));
      NoMembers(keys, s, |keys|);
    }
  }

  lemma {:induction false} NoMembers(keys: seq<Option<string>>, s: string, i: nat)
    requires i <= |keys| && Sectioned(keys) && IsSection(s) && Some(Lower(s)) !in keys
    ensures Members(keys, Lower(s) + ":", i) == []
  {
    if i > 0 {
      NoMembers(keys, s, i - 1);
      if keys[i - 1].Some? {
        PrefixIsSection(s, keys[i - 1].value);
      }
    }
  }

  const TWO_SPELLINGS := [Some("Sec"), Some("sec"), Some("sec:k")]

  lemma TwoSpellingsSectioned()
    ensures Distinct(TWO_SPELLINGS) && Sectioned(TWO_SPELLINGS)
  {
    SectionOfExample();
    assert TWO_SPELLINGS[0].value[0] == 'S' && TWO_SPELLINGS[1].value[0] == 's';
    assert |TWO_SPELLINGS[0].value| == |TWO_SPELLINGS[1].value| == 3 && |TWO_SPELLINGS[2].value| == 5;
    assert Some("sec") == TWO_SPELLINGS[1] && Lower("sec") == "sec";
    assert "Sec"[0] == 'S' && "Sec"[1] == 'e' && "Sec"[2] == 'c';
  }

  /** With two spellings the keys of the section are counted twice. */
  lemma TwoSpellings()
    ensures var names := Names(TWO_SPELLINGS, 3);
      |names| + KeysOf(TWO_SPELLINGS, names, 3) > Count(TWO_SPELLINGS)
  {
    hide Names, KeysOf, Colons, Count, SectionOf, Distinct, Sectioned;
    TwoSpellingsSectioned();
    SectionOfExample();
    NamesAreSections(TWO_SPELLINGS, 3);
    assert TWO_SPELLINGS[..3] == TWO_SPELLINGS;
    ColonsOfSections(TWO_SPELLINGS, Names(TWO_SPELLINGS, 3), 3);
    KeysOfBothKinds(TWO_SPELLINGS, 3);
    assert TWO_SPELLINGS[0] == Some("Sec") && Lower("Sec") == "sec";
    assert "Sec" in Names(TWO_SPELLINGS, 3);
    assert TWO_SPELLINGS[2].value[3] == ':' && "Sec"[0] != "sec"[0];
    assert IsKey(TWO_SPELLINGS[2]) && !OneSpelling("sec:k", Names(TWO_SPELLINGS, 3));
  }

  lemma SectionOfExample()
    ensures SectionOf("sec:k") == "sec"
  {
    PrefixIsSection("sec", "sec:k");
    assert Lower("sec") == "sec";
    assert "sec:k"[3] == ':';
  }
}
