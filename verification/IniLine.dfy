/** `iniparser_line`: what a line of an ini file is. */
module IniLine {

  import opened CString
  import opened IniDictionary
  import opened IniQuote
  import opened IniText

  datatype Line =
    | EmptyLine
    | CommentLine
    | SectionLine(name: string)
    | ValueLine(key: string, value: string)
    | ErrorLine

  predicate OneLine(s: string) {
    forall i | 0 <= i < |s| :: s[i] != '\n'
  }

  // ----- the formats of sscanf -----

  /** How many characters `%[...]` takes: those in the set, or with `not` those outside of it. */
  function Span(s: string, chars: string, not: bool): (n: nat)
    ensures n <= |s| && (forall i | 0 <= i < n :: (s[i] in chars) != not)
    ensures n < |s| ==> (s[n] in chars) == not
  {
    if s != "" && (s[0] in chars) != not then 1 + Span(s[1..], chars, not) else 0
  }

  /** `%[...]` fails when it takes nothing. */
  function ScanSet(s: string, chars: string, not: bool): Option<(string, string)> {
    var n := Span(s, chars, not);
    if n == 0 then None else Some((s[..n], s[n..]))
  }

  /** A literal character. */
  function ScanChar(s: string, c: char): Option<string> {
    if s != "" && s[0] == c then Some(s[1..]) else None
  }

  /** `%[^=] = `: the key, and what follows the sign. */
  function ScanAssign(s: string): Option<(string, string)> {
    match ScanSet(s, "=", true)
    case None => None
    case Some((key, s1)) =>
      match ScanChar(SkipSpaces(s1), '=')
      case None => None
      case Some(s2) => Some((key, SkipSpaces(s2)))
  }

  /** `%[^=] = "%[^\n]"`, or with single quotes: complete as soon as the value is read. */
  function ScanQuoted(s: string, quote: char): Option<(string, string)> {
    match ScanAssign(s)
    case None => None
    case Some((key, s1)) =>
      match ScanChar(s1, quote)
      case None => None
      case Some(s2) =>
        match ScanSet(s2, "\n", true)
        case None => None
        case Some((value, _)) => Some((key, value))
  }

  /** `%[^=] = %[^;#]` or `%[^=] = %[;#]` */
  function ScanPlain(s: string, marks: bool): Option<(string, string)> {
    match ScanAssign(s)
    case None => None
    case Some((key, s1)) =>
      match ScanSet(s1, ";#", !marks)
      case None => None
      case Some((value, _)) => Some((key, value))
  }

  /** `%[^=] %[=]` */
  function ScanEquals(s: string): Option<(string, string)> {
    match ScanSet(s, "=", true)
    case None => None
    case Some((key, s1)) =>
      match ScanSet(SkipSpaces(s1), "=", false)
      case None => None
      case Some((value, _)) => Some((key, value))
  }

  // ----- lines -----

  function KeyOf(key: string): string {
    Lower(Strip(key))
  }

  function PlainValue(value: string): string {
    if Strip(value) == "\"\"" || Strip(value) == "''" then "" else Strip(value)
  }

  function SectionName(line: string): string
    requires line != "" && line[|line| - 1] == ']'
  {
    Lower(Strip(line[..|line| - 1]))
  }

  function ParseAssignment(line: string): Line {
    match (ScanQuoted(line, '\"'), ScanQuoted(line, '\''), ScanPlain(line, false), ScanPlain(line, true), ScanEquals(line))
    case (Some((k, v)), _, _, _, _) => ValueLine(KeyOf(k), Unquote(v, '\"'))
    case (None, Some((k, v)), _, _, _) => ValueLine(KeyOf(k), Unquote(v, '\''))
    case (None, None, Some((k, v)), _, _) => ValueLine(KeyOf(k), PlainValue(v))
    case (None, None, None, Some((k, _)), _) => ValueLine(KeyOf(k), "")
    case (None, None, None, None, Some((k, _))) => ValueLine(KeyOf(k), "")
    case _ => ErrorLine
  }

  function ParseLine(input: string): Line {
    var line := Strip(input);
    if line == "" then EmptyLine
    else if line[0] == '#' || line[0] == ';' then CommentLine
    else if line[0] == '[' && line[|line| - 1] == ']' then SectionLine(SectionName(line[1..]))
    else ParseAssignment(line)
  }

  // ----- what the formats mean -----

  lemma SpanOf(a: string, b: string, chars: string, not: bool)
    requires forall i | 0 <= i < |a| :: (a[i] in chars) != not
    requires b != "" ==> (b[0] in chars) == not
    ensures Span(a + b, chars, not) == |a|
  {
    var n := Span(a + b, chars, not);
    assert forall i | 0 <= i < |a| :: (a + b)[i] == a[i];
    assert b != "" ==> (a + b)[|a|] == b[0];
  }

  lemma SkipNothing(s: string)
    requires s == "" || !IsSpace(s[0])
    ensures SkipSpaces(s) == s
  {}

  /** A line has a key and a value exactly if there is something in front of a sign of equality. */
  lemma AssignmentExactly(line: string)
    ensures ParseAssignment(line).ValueLine? <==> exists i :: 0 < i < |line| && line[i] == '=' && line[0] != '='
    ensures ParseAssignment(line).ValueLine? ==>
      exists i :: 0 < i < |line| && line[i] == '=' && '=' !in line[..i] && ParseAssignment(line).key == KeyOf(line[..i])
  {
    hide KeyOf, Unquote, PlainValue;
    var k := Span(line, "=", true);
    assert (forall i | 0 <= i < k :: line[i] != '=') && (k < |line| ==> line[k] == '=');
    if 0 < k < |line| {
      var s1 := line[k..];
      assert s1[0] == '=';
      SkipNothing(s1);
      assert ScanEquals(line).Some? && ScanEquals(line).value.0 == line[..k];
      assert '=' !in line[..k];
    }
  }

  lemma {:induction false} SkippedSuffix(s: string)
    requires OneLine(s)
    ensures OneLine(SkipSpaces(s)) && (SkipSpaces(s) != "" ==> !IsSpace(SkipSpaces(s)[0]))
  {
    if s != "" && IsSpace(s[0]) {
      SkippedSuffix(s[1..]);
    }
  }

  lemma AssignSuffix(s: string)
    requires OneLine(s) && ScanAssign(s).Some?
    ensures var rest := ScanAssign(s).value.1; OneLine(rest) && (rest != "" ==> !IsSpace(rest[0]))
  {
    var (key, s1) := ScanSet(s, "=", true).value;
    SkippedSuffix(s1);
    SkippedSuffix(SkipSpaces(s1)[1..]);
  }

  lemma StripKeepsFirst(v: string)
    requires v != "" && !IsSpace(v[0])
    ensures Strip(v) != "" && Strip(v) <= v
  {
    SkipNothing(v);
  }

  /** The special treatment of a pair of quotes never applies: such a line has been read as a quoted value. */
  lemma QuotesAreNeverPlain(s: string)
    requires OneLine(s) && ScanQuoted(s, '\"').None? && ScanQuoted(s, '\'').None? && ScanPlain(s, false).Some?
    ensures var v := ScanPlain(s, false).value.1; PlainValue(v) == Strip(v)
  {
    AssignSuffix(s);
    var rest := ScanAssign(s).value.1;
    hide ScanAssign, SkipSpaces;
    var v := ScanPlain(s, false).value.1;
    StripKeepsFirst(v);
    if |rest| > 1 && (rest[0] == '\"' || rest[0] == '\'') {
      assert rest[1..][0] != '\n';
    }
  }

  // ----- the classifier -----

  datatype Status = LineError | LineEmpty | LineComment | LineSection | LineValue

  /** The status and the buffers that go with it tell what the line is. */
  ghost predicate Tells(l: Line, sta: Status, section: array<char>, key: array<char>, value: array<char>)
    reads section, key, value
  {
    match l
    case EmptyLine => sta == LineEmpty
    case CommentLine => sta == LineComment
    case SectionLine(name) => sta == LineSection && Holds(section, name)
    case ValueLine(k, v) => sta == LineValue && Holds(key, k) && Holds(value, v)
    case ErrorLine => sta == LineError
  }

  lemma {:induction false} SkipSpacesShorter(s: string)
    ensures |SkipSpaces(s)| <= |s| && (NulFree(s) ==> NulFree(SkipSpaces(s)))
  {
    if s != "" && IsSpace(s[0]) {
      SkipSpacesShorter(s[1..]);
    }
  }

  /** What a format reads is shorter than the line. */
  predicate Parts(s: string, scanned: Option<(string, string)>) {
    scanned.Some? ==>
      var (key, value) := scanned.value;
      NulFree(key) && NulFree(value) && |key| < |s| && |value| < |s|
  }

  lemma AssignParts(s: string)
    requires NulFree(s)
    ensures Parts(s, ScanAssign(s))
    ensures ScanSet(s, "=", true).Some? ==> NulFree(ScanSet(s, "=", true).value.0) && NulFree(ScanSet(s, "=", true).value.1)
  {
    var key := ScanSet(s, "=", true);
    if key.Some? {
      SkipSpacesShorter(key.value.1);
      var s2 := ScanChar(SkipSpaces(key.value.1), '=');
      if s2.Some? {
        SkipSpacesShorter(s2.value);
      }
    }
  }

  lemma ScanParts(s: string)
    requires NulFree(s)
    ensures Parts(s, ScanQuoted(s, '\"')) && Parts(s, ScanQuoted(s, '\''))
    ensures Parts(s, ScanPlain(s, false)) && Parts(s, ScanPlain(s, true)) && Parts(s, ScanEquals(s))
  {
    hide SkipSpaces;
    AssignParts(s);
    var key := ScanSet(s, "=", true);
    if key.Some? {
      SkipSpacesShorter(key.value.1);
    }
    hide ScanAssign;
  }

  /** What a line gives is no longer than the line. */
  lemma LineParts(x: string)
    requires NulFree(x)
    ensures ParseLine(x).SectionLine? ==> |ParseLine(x).name| <= |x|
    ensures ParseLine(x).ValueLine? ==> |ParseLine(x).key| <= |x|
  {
    hide Strip;
    var line := Strip(x);
    StripNulFree(x);
    if line != "" {
      if line[|line| - 1] == ']' && |line| > 1 {
        KeyShorter(line[1..][..|line| - 2]);
      }
      ScanParts(line);
      hide ScanQuoted, ScanPlain, ScanEquals, NulFree;
      forall s | Parts(line, s) && s.Some? ensures |KeyOf(s.value.0)| <= |x| {
        KeyShorter(s.value.0);
      }
    }
  }

  lemma KeyShorter(key: string)
    ensures |KeyOf(key)| <= |key|
  {
    var a, c := StripSplits(key);
  }

  /** A key as it is scanned is stripped and put in lower case. */
  method ScannedKey(key: array<char>, text: string, len: nat)
    requires NulFree(text) && |text| < len && len <= key.Length
    modifies key
    ensures Holds(key, KeyOf(text))
  {
    StrCpy(key, 0, text);
    var n := StripInPlace(key, text);
    StripNulFree(text);
    LowerInto(key, key, len, Strip(text));
  }

  method ScannedPlain(value: array<char>, text: string)
    requires NulFree(text) && |text| < value.Length
    modifies value
    ensures Holds(value, PlainValue(text))
  {
    StrCpy(value, 0, text);
    var n := StripInPlace(value, text);
    if value[..n] == "\"\"" || value[..n] == "''" {
      value[0] := NUL;
    }
  }

  method ScannedQuoted(value: array<char>, text: string, quote: char)
    requires NulFree(text) && |text| < value.Length
    modifies value
    ensures Holds(value, Unquote(text, quote))
  {
    StrCpy(value, 0, text);
    ParseQuotedValue(value, quote, text);
  }

  /** What is scanned in place of a value is dropped. */
  method ScannedNothing(value: array<char>, text: string)
    requires NulFree(text) && |text| < value.Length
    modifies value
    ensures Holds(value, "")
  {
    StrCpy(value, 0, text);
    value[0] := NUL;
  }

  /** `iniparser_line`; the buffers are as long as the longest line, which has no line break in it. */
  method ReadLine(input: array<char>, section: array<char>, key: array<char>, value: array<char>, ghost x: string)
    returns (sta: Status)
    requires Holds(input, x) && OneLine(x)
    requires |x| < section.Length && |x| < key.Length && |x| < value.Length
    requires key != value && key != section && value != section && input != section && input != key && input != value
    modifies section, key, value
    ensures Tells(ParseLine(x), sta, section, key, value)
    ensures !ParseLine(x).SectionLine? ==> section[..] == old(section[..])
  {
    hide Strip, ParseAssignment, SectionName;
    var n := StrLen(input, 0, x);
    var line := new char[n + 1];
    forall i | 0 <= i <= n {
      line[i] := input[i];
    }
    assert Holds(line, x);
    StripNulFree(x);
    var len := StripInPlace(line, x);
    var text := line[..len];
    assert text == Strip(x);
    if len < 1 {
      sta := LineEmpty;
    } else if text[0] == '#' || text[0] == ';' {
      sta := LineComment;
    } else if text[0] == '[' && text[len - 1] == ']' {
      ReadSection(section, text);
      sta := LineSection;
    } else {
      sta := ReadAssignment(key, value, section, text);
    }
  }

  method ReadSection(section: array<char>, text: string)
    requires NulFree(text) && 1 < |text| <= section.Length && text[|text| - 1] == ']'
    modifies section
    ensures Holds(section, SectionName(text[1..]))
  {
    StrCpy(section, 0, text[1..]);
    var len := StrLen(section, 0, text[1..]);
    ghost var name := text[1..];
    if section[len - 1] == ']' {
      section[len - 1] := NUL;
      name := name[..len - 1];
    }
    assert Holds(section, name);
    StripNulFree(name);
    var n := StripInPlace(section, name);
    LowerInto(section, section, len, Strip(name));
  }

  /** The formats without quotes. */
  method ReadUnquoted(key: array<char>, value: array<char>, section: array<char>, text: string) returns (sta: Status)
    requires NulFree(text) && |text| <= key.Length && |text| <= value.Length && key != value
    requires section != key && section != value
    requires ScanQuoted(text, '\"').None? && ScanQuoted(text, '\'').None?
    modifies key, value
    ensures Tells(ParseAssignment(text), sta, section, key, value)
  {
    hide Strip, Holds, KeyOf, PlainValue, Unquote;
    ScanParts(text);
    hide ScanQuoted, ScanPlain, ScanEquals, NulFree;
    var plain := ScanPlain(text, false);
    if plain.Some? {
      ScannedKey(key, plain.value.0, |text|);
      ScannedPlain(value, plain.value.1);
      return LineValue;
    }
    var marks := ScanPlain(text, true);
    var signs := ScanEquals(text);
    if marks.Some? || signs.Some? {
      var (k, v) := if marks.Some? then marks.value else signs.value;
      ScannedKey(key, k, |text|);
      ScannedNothing(value, v);
      return LineValue;
    }
    sta := LineError;
  }

  method ReadAssignment(key: array<char>, value: array<char>, section: array<char>, text: string) returns (sta: Status)
    requires NulFree(text) && |text| <= key.Length && |text| <= value.Length && key != value
    requires section != key && section != value
    modifies key, value
    ensures Tells(ParseAssignment(text), sta, section, key, value)
  {
    hide Strip, Holds, KeyOf, PlainValue, Unquote;
    ScanParts(text);
    hide ScanQuoted, ScanPlain, ScanEquals, NulFree;
    var doubleQuoted := ScanQuoted(text, '\"');
    var singleQuoted := ScanQuoted(text, '\'');
    if doubleQuoted.Some? || singleQuoted.Some? {
      var (k, v) := if doubleQuoted.Some? then doubleQuoted.value else singleQuoted.value;
      ScannedKey(key, k, |text|);
      ScannedQuoted(value, v, if doubleQuoted.Some? then '\"' else '\'');
      return LineValue;
    }
    sta := ReadUnquoted(key, value, section, text);
  }
}
