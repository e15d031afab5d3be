/** `iniparser_dump_ini`: a dictionary as a file that can be loaded. */
module IniDump {

  import opened CString
  import opened IniDictionary
  import opened IniQuote
  import opened IniSections
  import opened IniText

  /** `%-30s` */
  function Padded(s: string): string {
    s + seq(if |s| < 30 then 30 - |s| else 0, _ => ' ')
  }

  /** An entry, with its line break. */
  function EntryLine(k: string, pad: bool, escaped: string): string {
    (if pad then Padded(k) else k) + " = \"" + escaped + "\"\n"
  }

  /** What the `escaped` buffer holds behind the first slots: a NULL value leaves it alone. */
  function EscapedAt(keys: seq<Option<string>>, vals: seq<Option<string>>, prefix: string, i: nat): string
    requires i <= |keys| == |vals|
  {
    if i == 0 then ""
    else if HasPrefix(keys[i - 1], prefix) && vals[i - 1].Some? then EscapeValue(vals[i - 1].value)
    else EscapedAt(keys, vals, prefix, i - 1)
  }

  /** The line of a slot, if its key has the prefix. */
  function SlotText(keys: seq<Option<string>>, vals: seq<Option<string>>, prefix: string, pad: bool, i: nat): string
    requires i < |keys| == |vals|
  {
    if HasPrefix(keys[i], prefix) then
      EntryLine(keys[i].value[|prefix|..], pad, EscapedAt(keys, vals, prefix, i + 1))
    else ""
  }

  function EntriesText(keys: seq<Option<string>>, vals: seq<Option<string>>, prefix: string, pad: bool, i: nat): string
    requires i <= |keys| == |vals|
  {
    if i == 0 then "" else EntriesText(keys, vals, prefix, pad, i - 1) + SlotText(keys, vals, prefix, pad, i - 1)
  }

  const KEYM_SIZE := ASCIILINESZ + 1

  /** A section, unless its name in lower case is no entry or it is too long. */
  function SectionText(keys: seq<Option<string>>, vals: seq<Option<string>>, s: string): string
    requires |keys| == |vals|
  {
    if EntryOf(s) !in Contents(keys, vals) || |s| > KEYM_SIZE then ""
    else "\n[" + s + "]\n" + EntriesText(keys, vals, s + ":", true, |keys|) + "\n"
  }

  function SectionsText(keys: seq<Option<string>>, vals: seq<Option<string>>, names: seq<string>, i: nat): string
    requires |keys| == |vals| && i <= |names|
  {
    if i == 0 then "" else SectionsText(keys, vals, names, i - 1) + SectionText(keys, vals, names[i - 1])
  }

  function DumpText(keys: seq<Option<string>>, vals: seq<Option<string>>): string
    requires |keys| == |vals|
  {
    var names := Names(keys, |keys|);
    if names == [] then EntriesText(keys, vals, "", false, |keys|)
    else SectionsText(keys, vals, names, |names|) + "\n"
  }

  // ----- the dumper -----

  /** What the buffers on the stack have room for. */
  ghost predicate FitsBuffers(keys: seq<Option<string>>, vals: seq<Option<string>>)
    requires |keys| == |vals|
  {
    && (forall i | 0 <= i < |keys| && keys[i].Some? :: NulFree(keys[i].value))
    && (forall i | 0 <= i < |keys| && keys[i].Some? && IsSection(keys[i].value) :: |keys[i].value| < ASCIILINESZ)
    && (forall i | 0 <= i < |keys| && vals[i].Some? :: NulFree(vals[i].value) && |vals[i].value| <= ASCIILINESZ)
  }

  /** The entries with a prefix, one line for each. */
  method DumpEntries(d: Dictionary, prefix: string, pad: bool) returns (f: string)
    requires d.Valid() && FitsBuffers(d.key[..], d.val[..])
    ensures f == EntriesText(d.key[..], d.val[..], prefix, pad, d.size)
  {
    hide Distinct, Count, Hash, EntryLine;
    ghost var keys, vals := d.key[..], d.val[..];
    var escaped := new char[ASCIILINESZ * 2 + 2](_ => NUL);
    f := "";
    var j := 0;
    while j < d.size
      invariant j <= d.size && d.key[..] == keys && d.val[..] == vals
      invariant f == EntriesText(keys, vals, prefix, pad, j)
      invariant Holds(escaped, EscapedAt(keys, vals, prefix, j))
    {
      if HasPrefix(d.key[j], prefix) {
        assert vals[j] == d.val[j];
        EscapeInto(escaped, d.val[j]);
        var text := ReadText(escaped, EscapedAt(keys, vals, prefix, j + 1));
        f := f + EntryLine(d.key[j].value[|prefix|..], pad, text);
      }
      j := j + 1;
    }
  }

  /** `iniparser_dumpsection_ini` */
  method DumpSection(d: Dictionary, s: string) returns (f: string)
    requires d.Valid() && FitsBuffers(d.key[..], d.val[..]) && NulFree(s)
    requires |s| < ASCIILINESZ || |s| > KEYM_SIZE
    ensures f == SectionText(d.key[..], d.val[..], s)
  {
    hide Distinct, Count, Hash, FitsBuffers, EntriesText, EntryOf;
    f := "";
    var found := FindEntry(d, s);
    if !found || |s| > KEYM_SIZE {
      return;
    }
    var keym := new char[KEYM_SIZE];
    StrCpy(keym, 0, s + ":");
    var prefix := ReadText(keym, s + ":");
    var entries := DumpEntries(d, prefix, true);
    f := "\n[" + s + "]\n" + entries + "\n";
  }

  /** `iniparser_dump_ini` */
  method DumpIni(d: Dictionary) returns (f: string)
    requires d.Valid() && FitsBuffers(d.key[..], d.val[..])
    ensures f == DumpText(d.key[..], d.val[..])
  {
    hide Distinct, Count, Hash, FitsBuffers, SectionText, EntriesText;
    var nsec := GetNSec(d);
    if nsec < 1 {
      f := DumpEntries(d, "", false);
      return;
    }
    f := "";
    ghost var keys, vals := d.key[..], d.val[..];
    ghost var names := Names(keys, d.size);
    var i := 0;
    while i < nsec
      invariant i <= nsec && f == SectionsText(keys, vals, names, i)
      invariant d.key[..] == keys && d.val[..] == vals
    {
      var secname := GetSecName(d, i);
      NamesFit(keys, vals, d.size, i);
      var section := DumpSection(d, secname.value);
      f := f + section;
      i := i + 1;
    }
    f := f + "\n";
  }

  lemma {:induction false} NamesFit(keys: seq<Option<string>>, vals: seq<Option<string>>, n: nat, i: nat)
    requires n <= |keys| == |vals| && FitsBuffers(keys, vals) && i < |Names(keys, n)|
    ensures NulFree(Names(keys, n)[i]) && |Names(keys, n)[i]| < ASCIILINESZ
  {
    if i < |Names(keys, n - 1)| {
      NamesFit(keys, vals, n - 1, i);
    }
  }

  // ----- the text in its characters -----

  /** A key in a section is filled up with blanks to 30 characters. */
  lemma EntryShape(k: string, pad: bool, escaped: string) returns (blanks: string)
    ensures EntryLine(k, pad, escaped) == k + blanks + " = \"" + escaped + "\"\n"
    ensures forall i | 0 <= i < |blanks| :: blanks[i] == ' '
    ensures |blanks| == if pad && |k| < 30 then 30 - |k| else 0
  {
    blanks := if pad then Padded(k)[|k|..] else "";
  }

  /** The file of a section with one entry: a blank line, the header, the entry, and two blank lines. */
  lemma DumpOne(s: string, k: string, v: string) returns (blanks: string)
    requires IsSection(s) && Lower(s) == s && |s| < ASCIILINESZ
    ensures DumpText([Some(s), Some(s + ":" + k)], [None, Some(v)]) ==
      "\n[" + s + "]\n" + (k + blanks + " = \"" + EscapeValue(v) + "\"\n") + "\n" + "\n"
    ensures |blanks| == (if |k| < 30 then 30 - |k| else 0) && forall i | 0 <= i < |blanks| :: blanks[i] == ' '
  {
    var prefix := s + ":";
    var keys, vals := [Some(s), Some(prefix + k)], [None, Some(v)];
    assert (prefix + k)[|s|] == ':' && (prefix + k)[|prefix|..] == k;
    assert !IsSection(prefix + k) && keys[0].value == s && keys[1].value == prefix + k;
    assert Names(keys, 1) == [s];
    assert Names(keys, 2) == [s];
    assert s in KeySet(keys);
    blanks := EntryShape(k, true, EscapeValue(v));
    hide EntryLine, EscapeValue;
    assert !HasPrefix(keys[0], prefix) && HasPrefix(keys[1], prefix);
    assert SlotText(keys, vals, prefix, true, 0) == "";
    assert SlotText(keys, vals, prefix, true, 1) == EntryLine(k, true, EscapeValue(v));
    hide SlotText, HasPrefix;
    assert EntriesText(keys, vals, prefix, true, 1) == "";
    assert EntriesText(keys, vals, prefix, true, 2) == EntryLine(k, true, EscapeValue(v));
    hide EntriesText;
    assert SectionsText(keys, vals, [s], 1) == SectionText(keys, vals, s);
  }

  /** Without a section, an entry is a line with its whole key. */
  lemma DumpFlatOne(k: string, v: string)
    requires !IsSection(k)
    ensures DumpText([Some(k)], [Some(v)]) == k + " = \"" + EscapeValue(v) + "\"\n"
  {
    var keys, vals := [Some(k)], [Some(v)];
    assert k[|""|..] == k && Names(keys, 1) == [];
    assert SlotText(keys, vals, "", false, 0) == EntryLine(k, false, EscapeValue(v));
    assert EntriesText(keys, vals, "", false, 1) == EntryLine(k, false, EscapeValue(v));
  }
}
