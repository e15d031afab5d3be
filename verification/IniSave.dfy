/** Dumping a dictionary and loading the file, with sections or without any. */
module IniSave {

  import opened CString
  import opened IniDictionary
  import opened IniDump
  import opened IniLine
  import opened IniLineExactly
  import opened IniLineRoundTrip
  import opened IniLoad
  import opened IniQuote
  import opened IniRoundTrip
  import opened IniSections
  import opened IniText

  // ----- no sections -----

  /** A key as it is, the sign, and the value in quotes. */
  function FlatLine(k: string, escaped: string): string {
    k + " = \"" + escaped + "\""
  }

  lemma FlatReadsBack(k: string, v: string)
    requires GoodKey(k) && OneLine(v)
    ensures ParseLine(FlatLine(k, EscapeValue(v))) == ValueLine(k, v)
  {
    hide Strip, EscapeValue, Unquote, KeyOf, Lower, ParseLine, ParseAssignment;
    var escaped := EscapeValue(v);
    var line := FlatLine(k, escaped);
    var text := "\"" + escaped + "\"";
    EscapeOneLine(v);
    FlatLineParts(k, escaped);
    KeyOfSpaced(k);
    LineExactly("", line, "");
    QuotedExactly(k + " ", " ", text);
    UnquoteEscaped(v, "");
    assert escaped + "\"" + "" == escaped + "\"";
  }

  lemma FlatLineParts(k: string, escaped: string)
    requires k != "" && Trimmed(k) && '=' !in k && OneLine(escaped)
    ensures var line, text := FlatLine(k, escaped), "\"" + escaped + "\"";
      && line == (k + " ") + "=" + " " + text && line == "" + line + ""
      && Trimmed(line) && line[0] == k[0] && line[|line| - 1] == '\"' && '=' in line && k[0] != '='
      && Assignment(k + " ", " ", text) && text[1..] == escaped + "\""
  {
    var line := FlatLine(k, escaped);
    assert line[0] == k[0] && line[|k| + 1] == '=' && line[|line| - 1] == '\"';
    assert '=' !in k + " ";
  }

  /** What a dumped file without sections needs to be read back. */
  ghost predicate FlatSlot(keys: seq<Option<string>>, vals: seq<Option<string>>, i: nat)
    requires i < |keys| == |vals|
  {
    && (vals[i].Some? ==> OneLine(vals[i].value) && NulFree(vals[i].value))
    && (keys[i].Some? ==>
      var k := keys[i].value;
      && NulFree(k) && OneLine(k) && GoodKey(k)
      && |EntryLine(k, false, EscapedAt(keys, vals, "", i + 1))| < ASCIILINESZ)
  }

  ghost predicate FlatLoadable(keys: seq<Option<string>>, vals: seq<Option<string>>)
    requires |keys| == |vals|
  {
    Distinct(keys) && forall i | 0 <= i < |keys| :: FlatSlot(keys, vals, i)
  }

  /** What comes back of the first slots: the keys with a colon in front, in the section without a name. */
  function FlatReloaded(keys: seq<Option<string>>, vals: seq<Option<string>>, i: nat): map<string, Option<string>>
    requires i <= |keys| == |vals|
  {
    if i == 0 then map[]
    else
      var before := FlatReloaded(keys, vals, i - 1);
      if keys[i - 1].None? then before else before[":" + keys[i - 1].value := Some(LastValue(keys, vals, "", i))]
  }

  lemma FlatBodyParts(k: string, escaped: string)
    requires OneLine(k) && NulFree(k) && OneLine(escaped) && NulFree(escaped)
    ensures var line := FlatLine(k, escaped);
      && OneLine(line) && NulFree(line) && line != "" && line[|line| - 1] == '\"'
      && EntryLine(k, false, escaped) == line + "\n"
  {}

  lemma FlatValues(keys: seq<Option<string>>, vals: seq<Option<string>>)
    requires |keys| == |vals| && FlatLoadable(keys, vals)
    ensures forall j | 0 <= j < |vals| && vals[j].Some? :: OneLine(vals[j].value) && NulFree(vals[j].value)
  {
    forall j | 0 <= j < |vals| && vals[j].Some? ensures OneLine(vals[j].value) && NulFree(vals[j].value) {
      assert FlatSlot(keys, vals, j);
    }
  }

  /** The line of a slot. */
  lemma LoadFlatSlot(keys: seq<Option<string>>, vals: seq<Option<string>>, i: nat, rest: string, st: State)
    requires i < |keys| == |vals| && FlatLoadable(keys, vals) && NulFree(rest)
    requires Ready(st) && st.pending == "" && st.section == ""
    ensures NulFree(SlotText(keys, vals, "", false, i) + rest)
    ensures Load(SlotText(keys, vals, "", false, i) + rest, st) ==
      Load(rest, if keys[i].None? then st
                 else st.(dict := st.dict[":" + keys[i].value := Some(LastValue(keys, vals, "", i + 1))]))
  {
    hide Load, ParseLine, EntryLine, GoodKey, Distinct, EscapedAt, LastValue, FlatLine;
    if keys[i].Some? {
      var k := keys[i].value;
      var v := LastValue(keys, vals, "", i + 1);
      FlatValues(keys, vals);
      EscapedLast(keys, vals, "", i + 1);
      assert FlatSlot(keys, vals, i);
      assert k[|""|..] == k && "" + ":" + k == ":" + k;
      FlatReadsBack(k, v);
      EscapeOneLine(v);
      EscapeNulFree(v);
      FlatBodyParts(k, EscapeValue(v));
      LoadWhole(FlatLine(k, EscapeValue(v)), rest, st);
    } else {
      assert "" + rest == rest;
    }
  }

  lemma {:induction false} LoadFlat(keys: seq<Option<string>>, vals: seq<Option<string>>, i: nat, rest: string)
    requires i <= |keys| == |vals| && FlatLoadable(keys, vals) && NulFree(rest)
    ensures Ready(START.(dict := FlatReloaded(keys, vals, i))) && Ready(START)
    ensures NulFree(EntriesText(keys, vals, "", false, i) + rest)
    ensures Load(EntriesText(keys, vals, "", false, i) + rest, START) ==
      Load(rest, START.(dict := FlatReloaded(keys, vals, i)))
  {
    hide Load, FlatLoadable, SlotText, LastValue;
    if i == 0 {
      assert EntriesText(keys, vals, "", false, 0) + rest == rest;
      assert START.(dict := FlatReloaded(keys, vals, 0)) == START;
    } else {
      var before := EntriesText(keys, vals, "", false, i - 1);
      var slot := SlotText(keys, vals, "", false, i - 1);
      LoadFlatSlot(keys, vals, i - 1, rest, START.(dict := FlatReloaded(keys, vals, i - 1)));
      LoadFlat(keys, vals, i - 1, slot + rest);
      Associate(before, slot, rest);
    }
  }

  /** The keys that come back are those with a colon in front, each with its value or the last one in front of it. */
  lemma {:induction false} FlatReloadedAt(keys: seq<Option<string>>, vals: seq<Option<string>>, i: nat, x: string)
    requires i <= |keys| == |vals| && Distinct(keys)
    ensures var m := FlatReloaded(keys, vals, i);
      && (x in m <==> exists j :: 0 <= j < i && keys[j].Some? && x == ":" + keys[j].value)
      && (forall j | 0 <= j < i && keys[j].Some? && x == ":" + keys[j].value :: m[x] == Some(LastValue(keys, vals, "", j + 1)))
  {
    hide LastValue;
    if i > 0 {
      FlatReloadedAt(keys, vals, i - 1, x);
      forall j | 0 <= j < i - 1 && keys[j].Some? && keys[i - 1].Some?
        ensures ":" + keys[j].value != ":" + keys[i - 1].value
      {
        assert (":" + keys[j].value)[1..] == keys[j].value && (":" + keys[i - 1].value)[1..] == keys[i - 1].value;
      }
    }
  }

  lemma {:induction false} Longest(s: set<string>) returns (k: string)
    requires s != {}
    ensures k in s && forall x | x in s :: |x| <= |k|
  {
    k :| k in s;
    if s != {k} {
      var longest := Longest(s - {k});
      if |longest| > |k| { k := longest; }
    }
  }

  lemma KeyAt(keys: seq<Option<string>>, i: nat)
    requires i < |keys| && keys[i].Some?
    ensures keys[i].value in KeySet(keys)
  {}

  lemma NoneAt(keys: seq<Option<string>>)
    requires KeySet(keys) == {}
    ensures forall i | 0 <= i < |keys| :: keys[i].None?
  {
    hide KeySet;
    if i :| 0 <= i < |keys| && keys[i].Some? {
      KeyAt(keys, i);
    }
  }

  /** Of the dictionaries without sections, only the empty one comes back as it was. */
  lemma FlatChanges(keys: seq<Option<string>>, vals: seq<Option<string>>)
    requires |keys| == |vals| && Distinct(keys)
    ensures FlatReloaded(keys, vals, |keys|) == Contents(keys, vals) <==> KeySet(keys) == {}
  {
    var m := FlatReloaded(keys, vals, |keys|);
    hide Contents, FlatReloaded;
    if KeySet(keys) == {} {
      NoneAt(keys);
      forall x ensures x !in m && x !in Contents(keys, vals) {
        FlatReloadedAt(keys, vals, |keys|, x);
        ContentsAt(keys, vals, x);
        KeyIsFound(keys, x);
      }
    } else {
      var k := Longest(KeySet(keys));
      var x := ":" + k;
      FlatReloadedAt(keys, vals, |keys|, x);
      KeyIsFound(keys, k);
      assert keys[Find(keys, k)].Some? && x == ":" + keys[Find(keys, k)].value;
      ContentsAt(keys, vals, x);
      KeyIsFound(keys, x);
    }
  }

  lemma FlatKeys(keys: seq<Option<string>>, vals: seq<Option<string>>)
    requires |keys| == |vals| && Distinct(keys)
    ensures FlatReloaded(keys, vals, |keys|).Keys == set k | k in KeySet(keys) :: ":" + k
  {
    hide FlatReloaded, LastValue;
    forall x ensures x in FlatReloaded(keys, vals, |keys|) <==> x in set k | k in KeySet(keys) :: ":" + k {
      FlatReloadedAt(keys, vals, |keys|, x);
      if j :| 0 <= j < |keys| && keys[j].Some? && x == ":" + keys[j].value {
        KeyAt(keys, j);
      }
    }
  }

  /** A dictionary without sections is dumped as plain keys, which come back in the section without a name. */
  lemma FlatDumpThenLoad(keys: seq<Option<string>>, vals: seq<Option<string>>)
    requires |keys| == |vals| && FlatLoadable(keys, vals) && Names(keys, |keys|) == []
    ensures NulFree(DumpText(keys, vals)) && Ready(START)
    ensures Load(DumpText(keys, vals), START) == Some(FlatReloaded(keys, vals, |keys|))
    ensures FlatReloaded(keys, vals, |keys|).Keys == set k | k in KeySet(keys) :: ":" + k
    ensures forall i | 0 <= i < |keys| && keys[i].Some? :: ":" + keys[i].value in FlatReloaded(keys, vals, |keys|)
    ensures forall i | 0 <= i < |keys| && keys[i].Some? ::
      FlatReloaded(keys, vals, |keys|)[":" + keys[i].value] == Some(LastValue(keys, vals, "", i + 1))
  {
    hide Load, FlatReloaded, LastValue, FlatSlot;
    LoadFlat(keys, vals, |keys|, "");
    assert DumpText(keys, vals) + "" == DumpText(keys, vals);
    LoadEnd(START.(dict := FlatReloaded(keys, vals, |keys|)));
    FlatKeys(keys, vals);
    hide DumpText, FlatLoadable, KeySet;
    forall i | 0 <= i < |keys| && keys[i].Some?
      ensures ":" + keys[i].value in FlatReloaded(keys, vals, |keys|)
      ensures FlatReloaded(keys, vals, |keys|)[":" + keys[i].value] == Some(LastValue(keys, vals, "", i + 1))
    {
      FlatReloadedAt(keys, vals, |keys|, ":" + keys[i].value);
    }
  }

  // ----- stores -----

  /** What a dictionary needs to be read back. */
  ghost predicate Reloadable(keys: seq<Option<string>>, vals: seq<Option<string>>)
    requires |keys| == |vals|
  {
    if Names(keys, |keys|) == [] then FlatLoadable(keys, vals) else Loadable(keys, vals)
  }

  /** What comes back of it. */
  function SavedMap(keys: seq<Option<string>>, vals: seq<Option<string>>): map<string, Option<string>>
    requires |keys| == |vals|
  {
    if Names(keys, |keys|) == [] then FlatReloaded(keys, vals, |keys|) else Reloaded(keys, vals, Names(keys, |keys|))
  }

  /** Dumping a store and loading the file: the entries that come back, and exactly when they are the same. */
  method SaveAndLoad(d: Dictionary) returns (dict: Dictionary?)
    requires d.Valid() && Reloadable(d.key[..], d.val[..]) && FitsBuffers(d.key[..], d.val[..])
    ensures dict != null && dict.Valid() && dict.Map() == SavedMap(d.key[..], d.val[..])
    ensures dict.Map() == d.Map() <==>
      if Names(d.key[..], d.size) == [] then KeySet(d.key[..]) == {} else AllRegular(d.key[..], d.val[..])
  {
    hide Loadable, FlatLoadable, FitsBuffers, Load, DumpText, Names;
    if Names(d.key[..], d.size) == [] {
      FlatDumpThenLoad(d.key[..], d.val[..]);
      FlatChanges(d.key[..], d.val[..]);
    } else {
      DumpThenLoad(d.key[..], d.val[..]);
      DumpThenLoadExactly(d.key[..], d.val[..]);
    }
    var f := DumpIni(d);
    dict := LoadFile(f);
  }
}
