/** Loading what was dumped: exactly which entries come back, and when all of them do. */
module IniRoundTrip {

  import opened CString
  import opened IniDictionary
  import opened IniDump
  import opened IniLine
  import opened IniLineRoundTrip
  import opened IniLines
  import opened IniLoad
  import opened IniQuote
  import opened IniSections
  import opened IniText

  /** A line that ends in neither a blank nor a backslash. */
  lemma LoadWhole(line: string, rest: string, st: State)
    requires Ready(st) && st.pending == "" && Fits(line, st) && NulFree(rest)
    requires line != "" && !IsSpace(line[|line| - 1]) && line[|line| - 1] != '\\'
    ensures NulFree(line + "\n" + rest) && Ready(Entered(st, ParseLine(line)))
    ensures Load(line + "\n" + rest, st) == Load(rest, Entered(st, ParseLine(line)))
  {
    assert !Continues(line) && st.pending + line == line && st.(pending := "") == st;
    hide ParseLine, Load, Continues;
    LoadLine(line, rest, st);
  }

  // ----- a dumped file -----

  /** The value that the buffer stands for behind the first slots. */
  function LastValue(keys: seq<Option<string>>, vals: seq<Option<string>>, prefix: string, i: nat): string
    requires i <= |keys| == |vals|
  {
    if i == 0 then ""
    else if HasPrefix(keys[i - 1], prefix) && vals[i - 1].Some? then vals[i - 1].value
    else LastValue(keys, vals, prefix, i - 1)
  }

  lemma {:induction false} EscapedLast(keys: seq<Option<string>>, vals: seq<Option<string>>, prefix: string, i: nat)
    requires i <= |keys| == |vals|
    requires forall j | 0 <= j < |vals| && vals[j].Some? :: OneLine(vals[j].value) && NulFree(vals[j].value)
    ensures EscapedAt(keys, vals, prefix, i) == EscapeValue(LastValue(keys, vals, prefix, i))
    ensures OneLine(LastValue(keys, vals, prefix, i)) && NulFree(LastValue(keys, vals, prefix, i))
  {
    if i > 0 {
      EscapedLast(keys, vals, prefix, i - 1);
    }
  }

  /** The part of a key behind its section. */
  function NameOf(k: string): string
    requires !IsSection(k)
  {
    k[|SectionOf(k)| + 1..]
  }

  /** What a dumped file needs to be read back: names and keys that survive, and lines that fit the buffer. */
  ghost predicate LoadableSlot(keys: seq<Option<string>>, vals: seq<Option<string>>, i: nat)
    requires i < |keys| == |vals|
  {
    && (vals[i].Some? ==> OneLine(vals[i].value) && NulFree(vals[i].value))
    && (keys[i].Some? ==>
      var k := keys[i].value;
      && NulFree(k) && OneLine(k)
      && if IsSection(k) then Plain(k) && |k| + 3 < ASCIILINESZ
         else
           var s := SectionOf(k);
           && Some(s) in keys && GoodKey(NameOf(k))
           && |EntryLine(NameOf(k), true, EscapedAt(keys, vals, s + ":", i + 1))| < ASCIILINESZ)
  }

  ghost predicate Loadable(keys: seq<Option<string>>, vals: seq<Option<string>>)
    requires |keys| == |vals|
  {
    Distinct(keys) && forall i | 0 <= i < |keys| :: LoadableSlot(keys, vals, i)
  }

  lemma LoadableValues(keys: seq<Option<string>>, vals: seq<Option<string>>)
    requires |keys| == |vals| && Loadable(keys, vals)
    ensures forall j | 0 <= j < |vals| && vals[j].Some? :: OneLine(vals[j].value) && NulFree(vals[j].value)
  {
    forall j | 0 <= j < |vals| && vals[j].Some? ensures OneLine(vals[j].value) && NulFree(vals[j].value) {
      assert LoadableSlot(keys, vals, j);
    }
  }

  /** The dictionary with the entries of a section among the first slots. */
  function Added(dict: map<string, Option<string>>, keys: seq<Option<string>>, vals: seq<Option<string>>, prefix: string, i: nat):
    map<string, Option<string>>
    requires i <= |keys| == |vals|
  {
    if i == 0 then dict
    else
      var before := Added(dict, keys, vals, prefix, i - 1);
      if HasPrefix(keys[i - 1], prefix) then before[keys[i - 1].value := Some(LastValue(keys, vals, prefix, i))] else before
  }

  /** The line of a slot in its section. */
  lemma LoadSlot(keys: seq<Option<string>>, vals: seq<Option<string>>, s: string, i: nat, rest: string, st: State)
    requires i < |keys| == |vals| && Loadable(keys, vals) && NulFree(rest)
    requires Ready(st) && st.pending == "" && st.section == s && Plain(s) && IsSection(s)
    ensures NulFree(SlotText(keys, vals, s + ":", true, i) + rest)
    ensures Load(SlotText(keys, vals, s + ":", true, i) + rest, st) ==
      Load(rest, if HasPrefix(keys[i], s + ":") then
                   st.(dict := st.dict[keys[i].value := Some(LastValue(keys, vals, s + ":", i + 1))])
                 else st)
  {
    hide Load, ParseLine, EntryLine, GoodKey, Plain, Distinct, EscapedAt, LastValue, Padded;
    var prefix := s + ":";
    if HasPrefix(keys[i], prefix) {
      var k := keys[i].value;
      var v := LastValue(keys, vals, prefix, i + 1);
      PlainIsLower(s);
      PrefixIsSection(s, k);
      LoadableValues(keys, vals);
      EscapedLast(keys, vals, prefix, i + 1);
      assert LoadableSlot(keys, vals, i);
      var name := NameOf(k);
      assert k == s + ":" + name;
      EntryLineParts(name, EscapeValue(v));
      EntryReadsBack(name, v);
      EscapeOneLine(v);
      EscapeNulFree(v);
      BodyParts(name, EscapeValue(v));
      LoadWhole(EntryBody(name, EscapeValue(v)), rest, st);
    } else {
      assert "" + rest == rest;
    }
  }

  lemma PlainIsLower(s: string)
    requires Plain(s)
    ensures Lower(s) == s
  {}

  lemma EntryLineParts(k: string, escaped: string)
    ensures EntryLine(k, true, escaped) == EntryBody(k, escaped) + "\n"
  {}

  lemma BodyParts(k: string, escaped: string)
    requires OneLine(k) && NulFree(k) && OneLine(escaped) && NulFree(escaped)
    ensures var line := EntryBody(k, escaped);
      OneLine(line) && NulFree(line) && line != "" && line[|line| - 1] == '\"'
  {}

  /** The entries of a section. */
  lemma {:induction false} LoadEntries(keys: seq<Option<string>>, vals: seq<Option<string>>, s: string, i: nat,
                                      rest: string, st: State)
    requires i <= |keys| == |vals| && Loadable(keys, vals) && NulFree(rest)
    requires Ready(st) && st.pending == "" && st.section == s && Plain(s) && IsSection(s)
    ensures NulFree(EntriesText(keys, vals, s + ":", true, i) + rest)
    ensures Load(EntriesText(keys, vals, s + ":", true, i) + rest, st) ==
      Load(rest, st.(dict := Added(st.dict, keys, vals, s + ":", i)))
    decreases i
  {
    hide Load, Loadable, Plain, SlotText, LastValue;
    var prefix := s + ":";
    if i == 0 {
      assert EntriesText(keys, vals, prefix, true, 0) + rest == rest;
      assert st.(dict := Added(st.dict, keys, vals, prefix, 0)) == st;
    } else {
      var before := EntriesText(keys, vals, prefix, true, i - 1);
      var slot := SlotText(keys, vals, prefix, true, i - 1);
      var st' := st.(dict := Added(st.dict, keys, vals, prefix, i - 1));
      LoadSlot(keys, vals, s, i - 1, rest, st');
      LoadEntries(keys, vals, s, i - 1, slot + rest, st);
      Associate(before, slot, rest);
    }
  }

  /** The state behind a section. */
  function AfterSection(keys: seq<Option<string>>, vals: seq<Option<string>>, s: string, st: State): State
    requires |keys| == |vals|
  {
    st.(section := s, dict := Added(st.dict[s := None], keys, vals, s + ":", |keys|))
  }

  lemma LoadSection(keys: seq<Option<string>>, vals: seq<Option<string>>, s: string, rest: string, st: State)
    requires |keys| == |vals| && Loadable(keys, vals) && NulFree(rest)
    requires Ready(st) && st.pending == "" && IsSection(s) && Some(s) in keys
    ensures NulFree(SectionText(keys, vals, s) + rest)
    ensures Load(SectionText(keys, vals, s) + rest, st) == Load(rest, AfterSection(keys, vals, s, st))
  {
    hide Load, EntriesText, Added, Entered;
    SectionIsDumped(keys, vals, s);
    hide Loadable, Plain, ParseLine;
    var entries := EntriesText(keys, vals, s + ":", true, |keys|);
    var st1 := st.(section := s, dict := st.dict[s := None]);
    LoadBlank(rest, AfterSection(keys, vals, s, st));
    LoadEntries(keys, vals, s, |keys|, "\n" + rest, st1);
    var line := "[" + s + "]";
    SectionReadsBackExactly(s);
    EnteredSection(st, s);
    BracketParts(s);
    LoadWhole(line, entries + ("\n" + rest), st);
    LoadBlank(line + "\n" + (entries + ("\n" + rest)), st);
    SectionPieces(s, entries, rest);
  }

  lemma EnteredSection(st: State, s: string)
    ensures Entered(st, SectionLine(s)) == st.(section := s, dict := st.dict[s := None])
  {}

  lemma BracketParts(s: string)
    requires OneLine(s) && NulFree(s)
    ensures var line := "[" + s + "]"; OneLine(line) && NulFree(line) && line[|line| - 1] == ']'
  {}

  lemma SectionPieces(s: string, entries: string, rest: string)
    ensures "\n[" + s + "]\n" + entries + "\n" + rest == "\n" + ("[" + s + "]" + "\n" + (entries + ("\n" + rest)))
  {}

  lemma SectionIsDumped(keys: seq<Option<string>>, vals: seq<Option<string>>, s: string)
    requires |keys| == |vals| && Loadable(keys, vals) && IsSection(s) && Some(s) in keys
    ensures Plain(s) && NulFree(s) && OneLine(s) && |s| + 3 < ASCIILINESZ
    ensures EntryOf(s) in Contents(keys, vals)
  {
    var i :| 0 <= i < |keys| && keys[i] == Some(s);
    assert LoadableSlot(keys, vals, i);
    SlotOf(keys, vals, i);
  }

  function AfterSections(keys: seq<Option<string>>, vals: seq<Option<string>>, names: seq<string>, i: nat): State
    requires |keys| == |vals| && i <= |names|
  {
    if i == 0 then START else AfterSection(keys, vals, names[i - 1], AfterSections(keys, vals, names, i - 1))
  }

  lemma {:induction false} AfterSectionsReady(keys: seq<Option<string>>, vals: seq<Option<string>>, names: seq<string>, i: nat)
    requires |keys| == |vals| && i <= |names|
    ensures var st := AfterSections(keys, vals, names, i); Ready(st) && st.pending == "" && st.errs == 0
  {
    if i > 0 {
      AfterSectionsReady(keys, vals, names, i - 1);
    }
  }

  lemma {:induction false} LoadSections(keys: seq<Option<string>>, vals: seq<Option<string>>, names: seq<string>, i: nat,
                                       rest: string)
    requires |keys| == |vals| && Loadable(keys, vals) && NulFree(rest) && i <= |names|
    requires forall s | s in names :: IsSection(s) && Some(s) in keys
    ensures NulFree(SectionsText(keys, vals, names, i) + rest) && Ready(START) && Ready(AfterSections(keys, vals, names, i))
    ensures Load(SectionsText(keys, vals, names, i) + rest, START) == Load(rest, AfterSections(keys, vals, names, i))
    decreases i
  {
    hide Load, Loadable, SectionText, AfterSection;
    AfterSectionsReady(keys, vals, names, i);
    if i == 0 {
      assert SectionsText(keys, vals, names, 0) + rest == rest;
    } else {
      AfterSectionsReady(keys, vals, names, i - 1);
      LoadSection(keys, vals, names[i - 1], rest, AfterSections(keys, vals, names, i - 1));
      LoadSections(keys, vals, names, i - 1, SectionText(keys, vals, names[i - 1]) + rest);
      Associate(SectionsText(keys, vals, names, i - 1), SectionText(keys, vals, names[i - 1]), rest);
    }
  }

  // ----- what comes back -----

  /** The value that comes back for a key: none for a section, and for an entry without a value the last one
      in front of it in its section. */
  function ReloadedValue(keys: seq<Option<string>>, vals: seq<Option<string>>, k: string): Option<string>
    requires |keys| == |vals|
  {
    if IsSection(k) || Find(keys, k) == |keys| then None
    else Some(LastValue(keys, vals, SectionOf(k) + ":", Find(keys, k) + 1))
  }

  /** The keys of some of the sections, as they come back. */
  function Reloaded(keys: seq<Option<string>>, vals: seq<Option<string>>, names: seq<string>): map<string, Option<string>>
    requires |keys| == |vals|
  {
    map k | k in KeySet(keys) && SectionOf(k) in names :: ReloadedValue(keys, vals, k)
  }

  /** A key of the section that was met among the first slots has its value, all others are as before. */
  lemma {:induction false} AddedAt(dict: map<string, Option<string>>, keys: seq<Option<string>>, vals: seq<Option<string>>,
                                  s: string, i: nat, k: string)
    requires i <= |keys| == |vals| && Distinct(keys) && IsSection(s) && Lower(s) == s
    ensures var a := Added(dict, keys, vals, s + ":", i);
      if !IsSection(k) && SectionOf(k) == s && Find(keys, k) < i then k in a && a[k] == ReloadedValue(keys, vals, k)
      else (k in a <==> k in dict) && (k in a ==> a[k] == dict[k])
    decreases i
  {
    hide Lower, LastValue, SectionOf, Find;
    if i > 0 {
      AddedAt(dict, keys, vals, s, i - 1, k);
      if keys[i - 1].Some? {
        PrefixIsSection(s, keys[i - 1].value);
        SlotOf(keys, vals, i - 1);
      }
      FoundAt(keys, k, i - 1);
    }
  }

  lemma FoundAt(keys: seq<Option<string>>, k: string, i: nat)
    requires i < |keys|
    ensures Find(keys, k) == i ==> keys[i] == Some(k)
  {}

  /** A section more. */
  lemma ReloadedSection(keys: seq<Option<string>>, vals: seq<Option<string>>, names: seq<string>, s: string)
    requires |keys| == |vals| && Distinct(keys) && IsSection(s) && Lower(s) == s && Some(s) in keys && s !in names
    ensures Added(Reloaded(keys, vals, names)[s := None], keys, vals, s + ":", |keys|) == Reloaded(keys, vals, names + [s])
  {
    var a := Added(Reloaded(keys, vals, names)[s := None], keys, vals, s + ":", |keys|);
    var r := Reloaded(keys, vals, names + [s]);
    hide Added, Lower, LastValue, ReloadedValue, Find;
    forall k ensures (k in a <==> k in r) && (k in a ==> a[k] == r[k]) {
      AddedAt(Reloaded(keys, vals, names)[s := None], keys, vals, s, |keys|, k);
      KeyIsFound(keys, k);
      SectionValue(keys, vals, s);
    }
  }

  lemma SectionValue(keys: seq<Option<string>>, vals: seq<Option<string>>, s: string)
    requires |keys| == |vals| && IsSection(s)
    ensures ReloadedValue(keys, vals, s) == None && SectionOf(s) == s
  {}

  lemma KeyIsFound(keys: seq<Option<string>>, k: string)
    ensures k in KeySet(keys) <==> Find(keys, k) < |keys|
    ensures k in KeySet(keys) <==> Some(k) in keys
  {
    if Find(keys, k) < |keys| {
      assert keys[Find(keys, k)].value in KeySet(keys);
    }
  }

  lemma {:induction false} ReloadedSections(keys: seq<Option<string>>, vals: seq<Option<string>>, names: seq<string>, i: nat)
    requires |keys| == |vals| && Distinct(keys) && i <= |names|
    requires forall s | s in names :: IsSection(s) && Lower(s) == s && Some(s) in keys
    requires forall a, b | 0 <= a < b < |names| :: names[a] != names[b]
    ensures AfterSections(keys, vals, names, i).dict == Reloaded(keys, vals, names[..i])
    decreases i
  {
    hide Added, Lower, Distinct;
    if i > 0 {
      ReloadedSections(keys, vals, names, i - 1);
      ReloadedSection(keys, vals, names[..i - 1], names[i - 1]);
      assert names[..i] == names[..i - 1] + [names[i - 1]];
    }
  }

  lemma DumpedSections(keys: seq<Option<string>>, vals: seq<Option<string>>, s: string)
    requires |keys| == |vals| && Loadable(keys, vals)
    ensures s in Names(keys, |keys|) <==> IsSection(s) && Some(s) in keys
    ensures s in Names(keys, |keys|) ==> Lower(s) == s
  {
    NamesAreSections(keys, |keys|);
    assert keys[..|keys|] == keys;
    hide Names, Loadable, Lower;
    if IsSection(s) && Some(s) in keys {
      SectionIsDumped(keys, vals, s);
    }
  }

  lemma KeysHaveSections(keys: seq<Option<string>>, vals: seq<Option<string>>, k: string)
    requires |keys| == |vals| && Loadable(keys, vals) && k in KeySet(keys)
    ensures SectionOf(k) in Names(keys, |keys|)
  {
    DumpedSections(keys, vals, SectionOf(k));
    KeyIsFound(keys, k);
    assert LoadableSlot(keys, vals, Find(keys, k));
    SectionOfSection(k);
  }

  lemma ReloadedKeys(keys: seq<Option<string>>, vals: seq<Option<string>>, names: seq<string>)
    requires |keys| == |vals| && forall k | k in KeySet(keys) :: SectionOf(k) in names
    ensures Reloaded(keys, vals, names).Keys == KeySet(keys)
  {
    hide KeySet, ReloadedValue, SectionOf;
  }

  /** All sections one after the other. */
  lemma LoadAllSections(keys: seq<Option<string>>, vals: seq<Option<string>>, names: seq<string>)
    requires |keys| == |vals| && Loadable(keys, vals)
    requires forall s | s in names :: IsSection(s) && Lower(s) == s && Some(s) in keys
    requires forall a, b | 0 <= a < b < |names| :: names[a] != names[b]
    ensures NulFree(SectionsText(keys, vals, names, |names|) + "\n") && Ready(START)
    ensures Load(SectionsText(keys, vals, names, |names|) + "\n", START) == Some(Reloaded(keys, vals, names))
  {
    LoadableDistinct(keys, vals);
    hide Load, Loadable, SectionsText, Reloaded, Lower, Distinct, IsSection, AfterSections;
    var end := AfterSections(keys, vals, names, |names|);
    LoadSections(keys, vals, names, |names|, "\n");
    ReloadedSections(keys, vals, names, |names|);
    AfterSectionsReady(keys, vals, names, |names|);
    assert names[..|names|] == names;
    LoadBlank("", end);
    LoadEnd(end);
    assert "\n" + "" == "\n";
  }

  /** A loadable dictionary with sections is dumped as a file that loads without error; every key comes back. */
  lemma DumpThenLoad(keys: seq<Option<string>>, vals: seq<Option<string>>)
    requires |keys| == |vals| && Loadable(keys, vals) && Names(keys, |keys|) != []
    ensures NulFree(DumpText(keys, vals)) && Ready(START)
    ensures Load(DumpText(keys, vals), START) == Some(Reloaded(keys, vals, Names(keys, |keys|)))
    ensures Reloaded(keys, vals, Names(keys, |keys|)).Keys == KeySet(keys)
  {
    NamesAreSections(keys, |keys|);
    hide Load, Names, Loadable, SectionsText, Reloaded, KeySet, Lower, IsSection, EntriesText;
    var names := Names(keys, |keys|);
    forall s | s in names ensures IsSection(s) && Lower(s) == s && Some(s) in keys {
      DumpedSections(keys, vals, s);
    }
    LoadAllSections(keys, vals, names);
    forall k | k in KeySet(keys) ensures SectionOf(k) in names {
      KeysHaveSections(keys, vals, k);
    }
    ReloadedKeys(keys, vals, names);
  }

  /** A section has no value, an entry has one. */
  predicate Regular(k: Option<string>, v: Option<string>) {
    k.Some? ==> v.None? == IsSection(k.value)
  }

  ghost predicate AllRegular(keys: seq<Option<string>>, vals: seq<Option<string>>)
    requires |keys| == |vals|
  {
    forall i | 0 <= i < |keys| :: Regular(keys[i], vals[i])
  }

  lemma MapsAgree(keys: seq<Option<string>>, vals: seq<Option<string>>, r: map<string, Option<string>>)
    requires |keys| == |vals| && Distinct(keys) && r.Keys == KeySet(keys)
    requires forall i | 0 <= i < |keys| && keys[i].Some? :: r[keys[i].value] == vals[i] <==> Regular(keys[i], vals[i])
    ensures r == Contents(keys, vals) <==> AllRegular(keys, vals)
  {
    hide Find;
    var m := Contents(keys, vals);
    if r == m {
      forall i | 0 <= i < |keys| ensures Regular(keys[i], vals[i]) {
        if keys[i].Some? { SlotOf(keys, vals, i); }
      }
    }
    if AllRegular(keys, vals) {
      forall i | 0 <= i < |keys| && keys[i].Some? ensures r[keys[i].value] == vals[i] {
        assert Regular(keys[i], vals[i]);
      }
      SameContents(keys, vals, r);
    }
  }

  /** Precisely the dictionaries whose sections, and nothing else, are without a value come back unchanged. */
  lemma DumpThenLoadExactly(keys: seq<Option<string>>, vals: seq<Option<string>>)
    requires |keys| == |vals| && Loadable(keys, vals) && Names(keys, |keys|) != []
    ensures NulFree(DumpText(keys, vals)) && Ready(START)
    ensures Load(DumpText(keys, vals), START) == Some(Contents(keys, vals)) <==> AllRegular(keys, vals)
  {
    hide Load, Loadable, Distinct, ReloadedValue, Contents, AllRegular;
    DumpThenLoad(keys, vals);
    LoadableDistinct(keys, vals);
    var r := Reloaded(keys, vals, Names(keys, |keys|));
    forall i | 0 <= i < |keys| && keys[i].Some? ensures r[keys[i].value] == vals[i] <==> Regular(keys[i], vals[i]) {
      assert keys[i].value in KeySet(keys);
      SlotReloaded(keys, vals, i);
    }
    MapsAgree(keys, vals, r);
  }

  lemma LoadableDistinct(keys: seq<Option<string>>, vals: seq<Option<string>>)
    requires |keys| == |vals| && Loadable(keys, vals)
    ensures Distinct(keys)
  {}

  /** A slot comes back unchanged exactly if it is a section without a value or an entry with one. */
  lemma SlotReloaded(keys: seq<Option<string>>, vals: seq<Option<string>>, i: nat)
    requires i < |keys| == |vals| && Distinct(keys) && keys[i].Some?
    ensures ReloadedValue(keys, vals, keys[i].value) == vals[i] <==> Regular(keys[i], vals[i])
  {
    SlotOf(keys, vals, i);
    var k := keys[i].value;
    if !IsSection(k) {
      assert SectionOf(k) + ":" <= k;
    }
  }
}
