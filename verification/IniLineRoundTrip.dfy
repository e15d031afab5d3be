/** Lines of ini files that are read back as what was written, and exactly which are. */
module IniLineRoundTrip {

  import opened IniDictionary
  import opened IniDump
  import opened IniLine
  import opened IniQuote
  import opened IniText

  // ----- single lines -----

  /** Trimmed and in lower case. */
  predicate Plain(s: string) {
    Trimmed(s) && Lower(s) == s
  }

  /** What the key of an entry must be like. */
  predicate GoodKey(k: string) {
    k != "" && Plain(k) && '=' !in k && k[0] != '#' && k[0] != ';'
  }

  /** An entry without its line break. */
  function EntryBody(k: string, escaped: string): string {
    Padded(k) + " = \"" + escaped + "\""
  }

  lemma TrimmedBody(k: string, escaped: string)
    requires k != "" && Trimmed(k)
    ensures Strip(EntryBody(k, escaped)) == EntryBody(k, escaped)
    ensures EntryBody(k, escaped)[0] == k[0]
  {
    var line := EntryBody(k, escaped);
    assert line[0] == k[0] && line[|line| - 1] == '\"';
    StripTrimmed(line);
  }

  lemma KeyOfPadded(k: string)
    requires Plain(k)
    ensures KeyOf(Padded(k) + " ") == k
  {
    hide Strip;
    var blanks := Padded(k)[|k|..] + " ";
    assert Padded(k) + " " == "" + k + blanks;
    StripUnique("", k, blanks);
  }

  /** The quoted value is scanned up to the end of the line. */
  lemma ScanEntry(k: string, escaped: string)
    requires k != "" && '=' !in k && OneLine(escaped)
    ensures ScanQuoted(EntryBody(k, escaped), '\"') == Some((Padded(k) + " ", escaped + "\""))
  {
    hide ScanAssign;
    AssignEntry(k, escaped);
    var value := escaped + "\"";
    assert ("\"" + escaped + "\"")[1..] == value;
    SpanOf(value, "", "\n", true);
    assert value + "" == value && value[..|value|] == value;
  }

  /** The line of a good key reads back as its key and value. */
  lemma EntryReadsBack(k: string, v: string)
    requires GoodKey(k) && OneLine(v)
    ensures ParseLine(EntryBody(k, EscapeValue(v))) == ValueLine(k, v)
  {
    hide ScanQuoted, Strip, KeyOf, Unquote, EscapeValue, Lower;
    var escaped := EscapeValue(v);
    var line := EntryBody(k, escaped);
    TrimmedBody(k, escaped);
    assert line[|line| - 1] == '\"';
    EscapeOneLine(v);
    ScanEntry(k, escaped);
    KeyOfPadded(k);
    UnquoteEscaped(v, "");
    assert escaped + "\"" + "" == escaped + "\"";
  }

  /** The key is scanned with the blanks behind it. */
  lemma AssignEntry(k: string, escaped: string)
    requires k != "" && '=' !in k
    ensures ScanAssign(EntryBody(k, escaped)) == Some((Padded(k) + " ", "\"" + escaped + "\""))
  {
    var line := EntryBody(k, escaped);
    var key := Padded(k) + " ";
    var value := "\"" + escaped + "\"";
    assert line == key + ("= " + value);
    forall i | 0 <= i < |key| ensures key[i] != '=' {
      if i < |k| { assert key[i] == k[i]; }
    }
    SpanOf(key, "= " + value, "=", true);
    assert line[..|key|] == key && line[|key|..] == "= " + value;
    assert ("= " + value)[1..] == " " + value && (" " + value)[1..] == value;
    assert SkipSpaces(" " + value) == value;
  }

  lemma {:induction false} EscapeOneLine(v: string)
    requires OneLine(v)
    ensures OneLine(EscapeValue(v))
  {
    if v != "" {
      EscapeOneLine(v[1..]);
    }
  }

  lemma LowerTwice(s: string)
    ensures Lower(Lower(s)) == Lower(s)
  {}

  lemma LowerPlain(s: string)
    requires Trimmed(s)
    ensures Plain(Lower(s))
  {
    LowerTwice(s);
  }

  /** What is read as a key is trimmed, in lower case, and without the sign. */
  lemma KeyOfPlain(s: string)
    requires '=' !in s
    ensures Plain(KeyOf(s)) && '=' !in KeyOf(s)
  {
    var a, c := StripSplits(s);
    LowerPlain(Strip(s));
    forall i | 0 <= i < |KeyOf(s)| ensures KeyOf(s)[i] != '=' {
      assert Strip(s)[i] == s[|a| + i] && s[|a| + i] in s;
    }
  }

  lemma EmptyKeyIsNoEntry(escaped: string)
    ensures !ParseLine(EntryBody("", escaped)).ValueLine?
  {
    var line := EntryBody("", escaped);
    var blanks, rest := Padded("") + " ", "= \"" + escaped + "\"";
    assert line == blanks + rest + "";
    StripUnique(blanks, rest, "");
    assert Strip(line) == rest && rest[0] == '=';
    AssignmentExactly(rest);
  }

  /** An entry reads back as it was exactly if its key is good. */
  lemma EntryReadsBackExactly(k: string, v: string)
    requires OneLine(v)
    ensures ParseLine(EntryBody(k, EscapeValue(v))) == ValueLine(k, v) <==> GoodKey(k)
  {
    var body := EntryBody(k, EscapeValue(v));
    if GoodKey(k) {
      EntryReadsBack(k, v);
    } else if ParseLine(body) == ValueLine(k, v) {
      if k == "" {
        EmptyKeyIsNoEntry(EscapeValue(v));
      } else {
        BadKey(k, EscapeValue(v));
      }
    }
  }

  /** What is read is a good key, unless the line is a comment. */
  lemma BadKey(k: string, escaped: string)
    requires k != "" && !GoodKey(k)
    ensures var l := ParseLine(EntryBody(k, escaped)); l.ValueLine? ==> l.key != k
  {
    var body := EntryBody(k, escaped);
    var l := ParseLine(body);
    if l.ValueLine? && l.key == k {
      var line := Strip(body);
      assert l == ParseAssignment(line);
      AssignmentExactly(line);
      var i :| 0 < i < |line| && line[i] == '=' && '=' !in line[..i] && l.key == KeyOf(line[..i]);
      KeyOfPlain(line[..i]);
      TrimmedBody(k, escaped);
    }
  }

  /** A section line reads back as it was exactly if its name is trimmed and in lower case. */
  lemma SectionReadsBackExactly(s: string)
    ensures ParseLine("[" + s + "]") == SectionLine(s) <==> Plain(s)
  {
    var line := "[" + s + "]";
    assert line[0] == '[' && line[|line| - 1] == ']';
    StripTrimmed(line);
    assert line[1..] == s + "]" && (s + "]")[..|s|] == s;
    assert ParseLine(line) == SectionLine(Lower(Strip(s)));
    StripTrimmed(s);
    if Lower(Strip(s)) == s {
      var a, c := StripSplits(s);
      LowerPlain(Strip(s));
    }
  }

  // ----- values without quotes -----

  /** What may stand without quotes. */
  predicate PlainText(v: string) {
    v != "" && Trimmed(v) && ';' !in v && '#' !in v && v[0] != '\"' && v[0] != '\''
  }

  predicate Remark(c: string) {
    c != "" ==> (c[0] == ';' || c[0] == '#') && !IsSpace(c[|c| - 1])
  }

  lemma PlainBody(k: string, v: string, gap: string, remark: string)
    requires k != "" && Trimmed(k) && v != "" && Trimmed(v) && Blanks(gap) && Remark(remark)
    requires remark == "" ==> gap == ""
    ensures var line := k + " = " + v + gap + remark; Strip(line) == line && line[0] == k[0]
  {
    var line := k + " = " + v + gap + remark;
    assert line[0] == k[0];
    assert line[|line| - 1] == if remark == "" then v[|v| - 1] else remark[|remark| - 1];
    StripTrimmed(line);
  }

  lemma AssignPlain(k: string, text: string)
    requires k != "" && '=' !in k && text != "" && !IsSpace(text[0])
    ensures ScanAssign(k + " = " + text) == Some((k + " ", text))
  {
    var line := k + " = " + text;
    var key := k + " ";
    assert line == key + ("= " + text);
    forall i | 0 <= i < |key| ensures key[i] != '=' {
      if i < |k| { assert key[i] == k[i]; }
    }
    SpanOf(key, "= " + text, "=", true);
    assert line[..|key|] == key && line[|key|..] == "= " + text;
    assert ("= " + text)[1..] == " " + text && (" " + text)[1..] == text;
    assert SkipSpaces(" " + text) == text;
  }

  lemma ScanRemark(line: string, key: string, v: string, gap: string, remark: string)
    requires ScanAssign(line) == Some((key, v + gap + remark))
    requires PlainText(v) && Blanks(gap) && Remark(remark)
    ensures ScanPlain(line, false) == Some((key, v + gap))
  {
    hide ScanAssign;
    var taken := v + gap;
    forall i | 0 <= i < |taken| ensures taken[i] !in ";#" {
      if i < |v| { assert taken[i] == v[i] && v[i] in v; } else { assert IsSpace(gap[i - |v|]); }
    }
    SpanOf(taken, remark, ";#", true);
    assert (taken + remark)[..|taken|] == taken;
  }

  lemma NotQuoted(line: string, key: string, text: string)
    requires ScanAssign(line) == Some((key, text)) && text != "" && text[0] != '\"' && text[0] != '\''
    ensures ScanQuoted(line, '\"') == None && ScanQuoted(line, '\'') == None
  {}

  lemma PlainValueOf(v: string, gap: string)
    requires PlainText(v) && Blanks(gap)
    ensures PlainValue(v + gap) == v
  {
    hide Strip;
    StripUnique("", v, gap);
    assert "" + v + gap == v + gap;
    assert "\"\""[0] == '\"' && "''"[0] == '\'';
  }

  lemma KeyOfSpaced(k: string)
    requires Plain(k)
    ensures KeyOf(k + " ") == k
  {
    hide Strip;
    StripUnique("", k, " ");
    assert "" + k + " " == k + " ";
  }

  /** A key with nothing behind the sign has an empty value. */
  lemma NothingReadsBack(k: string)
    requires GoodKey(k) && k[0] != '['
    ensures ParseLine(k + " =") == ValueLine(k, "")
  {
    hide Strip, KeyOf;
    var line := k + " =";
    var key := k + " ";
    assert line[0] == k[0] && line[|line| - 1] == '=';
    StripTrimmed(line);
    assert line == key + "=";
    forall i | 0 <= i < |key| ensures key[i] != '=' {
      if i < |k| { assert key[i] == k[i]; }
    }
    SpanOf(key, "=", "=", true);
    assert line[..|key|] == key && line[|key|..] == "=" && "="[1..] == "";
    assert ScanAssign(line) == Some((key, ""));
    SpanOf("=", "", "=", false);
    assert "=" + "" == "=" && "="[..1] == "=";
    assert ScanEquals(line) == Some((key, "="));
    KeyOfSpaced(k);
  }

  /** A value without quotes ends in front of a remark, and the blanks around it do not count. */
  lemma PlainReadsBack(k: string, v: string, gap: string, remark: string)
    requires GoodKey(k) && k[0] != '[' && PlainText(v) && Blanks(gap) && Remark(remark)
    requires remark == "" ==> gap == ""
    ensures ParseLine(k + " = " + v + gap + remark) == ValueLine(k, v)
  {
    hide Strip, KeyOf, Lower, ScanAssign, ScanQuoted, ScanPlain, PlainValue;
    var line := k + " = " + v + gap + remark;
    var text := v + gap + remark;
    assert line == k + " = " + text && text[0] == v[0];
    PlainBody(k, v, gap, remark);
    AssignPlain(k, text);
    NotQuoted(line, k + " ", text);
    ScanRemark(line, k + " ", v, gap, remark);
    PlainValueOf(v, gap);
    KeyOfSpaced(k);
  }
}
