/** What a line of an ini file is, by its characters: every line is blanks, a trimmed text, and blanks. */
module IniLineExactly {

  import opened IniDictionary
  import opened IniLine
  import opened IniQuote
  import opened IniText

  // ----- kinds of lines -----

  predicate Remarked(b: string) {
    b != "" && (b[0] == '#' || b[0] == ';')
  }

  predicate Bracketed(b: string) {
    b != "" && b[0] == '[' && b[|b| - 1] == ']'
  }

  /** A sign of equality, but not in front. */
  predicate Assigned(b: string) {
    b != "" && b[0] != '=' && '=' in b
  }

  /** What a line is depends on its trimmed text alone. */
  lemma LineExactly(a: string, b: string, c: string)
    requires Blanks(a) && Trimmed(b) && Blanks(c)
    ensures var l := ParseLine(a + b + c);
      && (l.EmptyLine? <==> b == "")
      && (l.CommentLine? <==> Remarked(b))
      && (l.SectionLine? <==> Bracketed(b))
      && (l.ValueLine? <==> !Remarked(b) && !Bracketed(b) && Assigned(b))
      && (l.ErrorLine? <==> b != "" && !Remarked(b) && !Bracketed(b) && !Assigned(b))
    ensures Bracketed(b) ==> |b| > 1 && ParseLine(a + b + c) == SectionLine(Lower(Strip(b[1..|b| - 1])))
    ensures !Remarked(b) && !Bracketed(b) && Assigned(b) ==> ParseLine(a + b + c) == ParseAssignment(b)
  {
    hide Strip, Lower, ParseAssignment;
    StripUnique(a, b, c);
    AssignmentExactly(b);
    AssignedAt(b);
    AssignmentOrError(b);
    if Bracketed(b) {
      assert b[1..][..|b| - 2] == b[1..|b| - 1];
    }
  }

  lemma AssignedAt(b: string)
    ensures Assigned(b) <==> exists i :: 0 < i < |b| && b[i] == '=' && b[0] != '='
  {
    if Assigned(b) {
      var i :| 0 <= i < |b| && b[i] == '=';
      assert 0 < i;
    }
  }

  lemma AssignmentOrError(b: string)
    ensures ParseAssignment(b).ValueLine? || ParseAssignment(b).ErrorLine?
  {
    hide ScanQuoted, ScanPlain, ScanEquals, KeyOf, PlainValue, Unquote;
  }

  /** Every line has such a form. */
  lemma LineParted(x: string) returns (a: string, b: string, c: string)
    ensures x == a + b + c && Blanks(a) && Trimmed(b) && Blanks(c)
  {
    b := Strip(x);
    a, c := StripSplits(x);
  }

  // ----- values -----

  /** A key, the sign, blanks and a text without blanks in front. */
  predicate Assignment(key: string, gap: string, text: string) {
    key != "" && '=' !in key && Blanks(gap) && (text != "" ==> !IsSpace(text[0])) && OneLine(text)
  }

  lemma {:induction false} SkipBlanks(gap: string, text: string)
    requires Blanks(gap) && (text != "" ==> !IsSpace(text[0]))
    ensures SkipSpaces(gap + text) == text
  {
    if gap == "" {
      assert "" + text == text;
    } else {
      SkipBlanks(gap[1..], text);
      assert (gap + text)[1..] == gap[1..] + text;
    }
  }

  lemma LineForm(key: string, gap: string, text: string)
    ensures var line, tail := key + "=" + gap + text, "=" + gap + text;
      && line == key + tail && line[..|key|] == key && line[|key|..] == tail
      && tail[0] == '=' && tail[1..] == gap + text
  {}

  lemma ScanParted(key: string, gap: string, text: string)
    requires Assignment(key, gap, text)
    ensures var line := key + "=" + gap + text;
      ScanSet(line, "=", true) == Some((key, "=" + gap + text)) && ScanAssign(line) == Some((key, text))
  {
    var tail := "=" + gap + text;
    var line := key + "=" + gap + text;
    LineForm(key, gap, text);
    SkipBlanks(gap, text);
    SkipNothing(tail);
    hide Blanks, OneLine, SkipSpaces;
    forall i | 0 <= i < |key| ensures (key[i] in "=") != true {
      assert key[i] in key;
    }
    SpanOf(key, tail, "=", true);
    assert ScanSet(line, "=", true) == Some((key, tail));
    hide Span;
  }

  predicate QuotedText(text: string) {
    |text| > 1 && (text[0] == '\"' || text[0] == '\'')
  }

  /** A value that starts with a quote of either kind is unquoted up to that quote. */
  lemma QuotedExactly(key: string, gap: string, text: string)
    requires Assignment(key, gap, text) && QuotedText(text)
    ensures ParseAssignment(key + "=" + gap + text) == ValueLine(KeyOf(key), Unquote(text[1..], text[0]))
  {
    hide KeyOf, Unquote, ScanAssign;
    ScanParted(key, gap, text);
    SpanOf(text[1..], "", "\n", true);
    assert text[1..] + "" == text[1..] && text[1..][..|text| - 1] == text[1..];
  }

  /** Any other value ends in front of the first mark of a remark, and the blanks around it do not count. */
  lemma PlainExactly(key: string, gap: string, value: string, remark: string)
    requires Assignment(key, gap, value + remark) && !QuotedText(value + remark)
    requires ';' !in value && '#' !in value && (remark != "" ==> remark[0] == ';' || remark[0] == '#')
    ensures ParseAssignment(key + "=" + gap + (value + remark)) == ValueLine(KeyOf(key), Strip(value))
  {
    hide KeyOf, Unquote, ScanAssign, ScanQuoted, ScanEquals, Strip, PlainValue;
    var text := value + remark;
    var line := key + "=" + gap + text;
    ScanParted(key, gap, text);
    NoQuotes(line, key, text);
    ScanTo(line, key, value, remark);
    if value != "" {
      assert text[0] == value[0];
      PlainQuotes(value);
    } else {
      assert "=" + gap + text == "=" + (gap + text);
      EqualsFollow(line, key, gap + text);
      assert Strip("") == "" by { StripTrimmed(""); }
    }
  }

  lemma NoQuotes(line: string, key: string, text: string)
    requires ScanAssign(line) == Some((key, text)) && !QuotedText(text)
    ensures ScanQuoted(line, '\"').None? && ScanQuoted(line, '\'').None?
  {
    hide ScanAssign;
  }

  lemma ScanTo(line: string, key: string, value: string, remark: string)
    requires ScanAssign(line) == Some((key, value + remark))
    requires ';' !in value && '#' !in value && (remark != "" ==> remark[0] == ';' || remark[0] == '#')
    ensures ScanPlain(line, false) == if value == "" then None else Some((key, value))
    ensures ScanPlain(line, true).Some? ==> ScanPlain(line, true).value.0 == key
  {
    hide ScanAssign;
    SpanOf(value, remark, ";#", true);
    assert (value + remark)[..|value|] == value;
  }

  lemma PlainQuotes(value: string)
    requires value != "" && !IsSpace(value[0]) && !QuotedText(value)
    ensures PlainValue(value) == Strip(value)
  {
    StripKeepsFirst(value);
  }

  lemma EqualsFollow(line: string, key: string, tail: string)
    requires ScanSet(line, "=", true) == Some((key, "=" + tail))
    ensures ScanEquals(line).Some? && ScanEquals(line).value.0 == key
  {
    assert ("=" + tail)[0] == '=';
  }

  // ----- what stands between quotes -----

  /** A character that stands for itself, or one behind a backslash. */
  datatype Mark = Itself(c: char) | Escaped(c: char)

  function Marked(ms: seq<Mark>, rest: string): string {
    if ms == [] then rest
    else (if ms[0].Escaped? then ['\\', ms[0].c] else [ms[0].c]) + Marked(ms[1..], rest)
  }

  function MarkedValue(ms: seq<Mark>): string {
    seq(|ms|, i requires 0 <= i < |ms| => ms[i].c)
  }

  predicate MarksOk(ms: seq<Mark>, quote: char) {
    forall i | 0 <= i < |ms| && ms[i].Itself? :: ms[i].c != '\\' && ms[i].c != quote
  }

  /** The closing quote, or the end of the line, with a backslash or without. */
  predicate Closes(rest: string, quote: char) {
    rest == "" || rest == "\\" || rest[0] == quote
  }

  lemma {:induction false} UnquoteMarks(ms: seq<Mark>, rest: string, quote: char)
    requires MarksOk(ms, quote) && Closes(rest, quote) && quote != '\\'
    ensures Unquote(Marked(ms, rest), quote) == MarkedValue(ms)
  {
    if ms != [] {
      var s := Marked(ms, rest);
      var tail := Marked(ms[1..], rest);
      UnquoteMarks(ms[1..], rest, quote);
      if ms[0].Escaped? {
        assert s[2..] == tail;
      } else {
        assert s[1..] == tail;
      }
      assert MarkedValue(ms) == [ms[0].c] + MarkedValue(ms[1..]);
    }
  }

  /** Every text has such a form. */
  lemma {:induction false} MarksOf(s: string, quote: char) returns (ms: seq<Mark>, rest: string)
    ensures Marked(ms, rest) == s && MarksOk(ms, quote) && Closes(rest, quote)
  {
    if Closes(s, quote) {
      ms, rest := [], s;
    } else if s[0] == '\\' {
      ms, rest := MarksOf(s[2..], quote);
      ms := [Escaped(s[1])] + ms;
      assert s == ['\\', s[1]] + s[2..];
    } else {
      ms, rest := MarksOf(s[1..], quote);
      ms := [Itself(s[0])] + ms;
      assert s == [s[0]] + s[1..];
    }
  }

  /** An escaped value has a backslash in front of each backslash and each double quote, and of nothing else. */
  lemma {:induction false} EscapeMarks(v: string) returns (ms: seq<Mark>)
    ensures EscapeValue(v) == Marked(ms, "") && |ms| == |v|
    ensures forall i | 0 <= i < |v| :: ms[i] == if v[i] == '\\' || v[i] == '\"' then Escaped(v[i]) else Itself(v[i])
  {
    if v == "" {
      ms := [];
    } else {
      ms := EscapeMarks(v[1..]);
      ms := [if v[0] == '\\' || v[0] == '\"' then Escaped(v[0]) else Itself(v[0])] + ms;
    }
  }
}
