/** Loading a file line by line: what is entered, what is left out, and exactly which files are refused. */
module IniLines {

  import opened CString
  import opened IniDictionary
  import opened IniLine
  import opened IniLineExactly
  import opened IniLoad
  import opened IniText

  // ----- one line -----

  lemma ChunkOf(line: string, rest: string, room: nat)
    requires OneLine(line) && |line| < room
    ensures Chunk(line + "\n" + rest, room) == |line| + 1
  {
    var text := line + "\n" + rest;
    var n := Chunk(text, room);
    assert text[|line|] == '\n';
    assert forall i | 0 <= i < |line| :: text[i] == line[i];
  }

  lemma TrimBreak(line: string)
    ensures TrimEnd(line + "\n") == TrimEnd(line)
  {
    assert (line + "\n")[..|line|] == line;
  }

  lemma StripTail(t: string, tail: string)
    requires Blanks(tail)
    ensures Strip(t + tail) == Strip(t)
  {
    var a, c := StripSplits(t);
    hide Strip;
    assert t + tail == a + Strip(t) + (c + tail);
    StripUnique(a, Strip(t), c + tail);
  }

  /** Blanks behind a line say nothing. */
  lemma ParseTrimmed(x: string)
    ensures ParseLine(TrimEnd(x)) == ParseLine(x)
  {
    hide ParseAssignment, SectionName, Strip;
    var t := TrimEnd(x);
    assert x == t + x[|t|..];
    StripTail(t, x[|t|..]);
  }

  /** The last character that is no blank is a backslash. */
  predicate Continues(x: string) {
    var t := TrimEnd(x);
    t != "" && t[|t| - 1] == '\\'
  }

  lemma TurnLine(x: string, st: State, filled: bool)
    requires !Continues(x) && (x == "" ==> st.pending == "")
    ensures Turn(st, x + "\n", filled) == Next(Entered(st.(pending := ""), ParseLine(x)))
  {
    if x == "" {
      assert st.(pending := "") == st && Strip("") == "";
      assert "" + "\n" == "\n";
    } else {
      hide ParseLine, TrimEnd, Entered;
      TrimBreak(x);
      ParseTrimmed(x);
    }
  }

  /** One read of the loader. */
  lemma LoadOnce(piece: string, rest: string, st: State, next: State)
    requires Ready(st) && NulFree(piece + rest) && NulFree(rest) && Ready(next)
    requires piece != "" && Chunk(piece + rest, Room(st)) == |piece|
    requires Turn(st, st.pending + piece, |piece| == Room(st)) == Next(next)
    ensures Load(piece + rest, st) == Load(rest, next)
  {
    hide Turn, Chunk;
    var text := piece + rest;
    assert text[..|piece|] == piece && text[|piece|..] == rest;
  }

  /** A line that fits the buffer behind what was kept of the lines before it. */
  predicate Fits(line: string, st: State) {
    OneLine(line) && NulFree(line) && |st.pending| + |line| + 1 < ASCIILINESZ
  }

  /** A whole line is entered, with what was kept in front of it. */
  lemma LoadLine(line: string, rest: string, st: State)
    requires Ready(st) && Fits(line, st) && NulFree(rest) && !Continues(st.pending + line)
    ensures NulFree(line + "\n" + rest)
    ensures var next := Entered(st.(pending := ""), ParseLine(st.pending + line));
      Ready(next) && Load(line + "\n" + rest, st) == Load(rest, next)
  {
    hide ParseLine, Turn, Chunk, Load, Continues;
    var x := st.pending + line;
    ChunkOf(line, rest, Room(st));
    TurnLine(x, st, |line| + 1 == Room(st));
    assert st.pending + (line + "\n") == x + "\n";
    LoadOnce(line + "\n", rest, st, Entered(st.(pending := ""), ParseLine(x)));
  }

  /** What is kept of a line that ends in a backslash. */
  function Kept(x: string): string
    requires Continues(x)
  {
    TrimEnd(x)[..|TrimEnd(x)| - 1]
  }

  lemma TrimReady(x: string)
    requires OneLine(x) && NulFree(x) && Continues(x)
    ensures OneLine(Kept(x)) && NulFree(Kept(x)) && |Kept(x)| < |x|
  {}

  lemma TurnHalf(x: string, st: State, filled: bool)
    requires Continues(x)
    ensures Turn(st, x + "\n", filled) == Next(st.(pending := Kept(x)))
  {
    assert x != "";
    TrimBreak(x);
    hide ParseLine, TrimEnd;
  }

  /** A line that ends in a backslash is kept for the next read. */
  lemma LoadHalf(line: string, rest: string, st: State)
    requires Ready(st) && Fits(line, st) && NulFree(rest) && Continues(st.pending + line)
    ensures NulFree(line + "\n" + rest)
    ensures var next := st.(pending := Kept(st.pending + line));
      Ready(next) && Load(line + "\n" + rest, st) == Load(rest, next)
  {
    hide Load, Chunk, Kept, Continues, Turn;
    var x := st.pending + line;
    ChunkOf(line, rest, Room(st));
    TurnHalf(x, st, |line| + 1 == Room(st));
    TrimReady(x);
    assert st.pending + (line + "\n") == x + "\n";
    LoadOnce(line + "\n", rest, st, st.(pending := Kept(x)));
  }

  /** A backslash at the end of a line joins it with the next one. */
  lemma LoadContinued(first: string, second: string, rest: string, st: State)
    requires Ready(st) && st.pending == "" && Fits(first + "\\", st) && Fits(first + second, st)
    requires OneLine(second) && NulFree(second) && NulFree(rest) && !Continues(first + second)
    ensures var text := first + "\\" + "\n" + (second + "\n" + rest);
      var next := Entered(st, ParseLine(first + second));
      NulFree(text) && Ready(next) && Load(text, st) == Load(rest, next)
  {
    var line := first + "\\";
    assert TrimEnd(line) == line && line[..|first|] == first;
    assert st.pending + line == line;
    FirstFits(first, "\\");
    hide ParseLine, Load, TrimEnd;
    LoadHalf(line, second + "\n" + rest, st);
    LoadLine(second, rest, st.(pending := first));
    assert st.(pending := first).(pending := "") == st;
  }

  lemma FirstFits(first: string, tail: string)
    requires OneLine(first + tail) && NulFree(first + tail)
    ensures OneLine(first) && NulFree(first)
  {
    assert forall i | 0 <= i < |first| :: first[i] == (first + tail)[i];
  }

  lemma LoadNever(piece: string, rest: string, st: State)
    requires Ready(st) && NulFree(piece + rest) && piece != "" && Chunk(piece + rest, Room(st)) == |piece|
    requires Turn(st, st.pending + piece, |piece| == Room(st)) == TooLong
    ensures Load(piece + rest, st) == None
  {
    hide Turn, Chunk;
    assert (piece + rest)[..|piece|] == piece;
  }

  /** A line that does not fit the buffer with its break is an error, even at the end of the file. */
  lemma LoadTooLong(line: string, rest: string, st: State)
    requires Ready(st) && OneLine(line) && NulFree(line) && NulFree(rest)
    requires |st.pending| + |line| + 1 >= ASCIILINESZ
    ensures NulFree(line + rest) && Load(line + rest, st) == None
  {
    hide ParseLine, TrimEnd, Load;
    var text := line + rest;
    var n := Chunk(text, Room(st));
    assert forall i | 0 <= i < |line| :: text[i] == line[i];
    assert n == Room(st);
    var piece := text[..n];
    assert piece + text[n..] == text && (st.pending + piece)[|st.pending| + n - 1] == line[n - 1];
    LoadNever(piece, text[n..], st);
  }

  /** At the end of the file a line needs no line break, unless it is a single character, which is lost. */
  lemma LoadLast(line: string, st: State)
    requires Ready(st) && Fits(line, st) && line != ""
    ensures var x := st.pending + line;
      Load(line, st) ==
        if |x| == 1 || Continues(x) then (if st.errs > 0 then None else Some(st.dict))
        else
          var next := Entered(st, ParseLine(x));
          if next.errs > 0 then None else Some(next.dict)
  {
    var x := st.pending + line;
    assert line + "" == line && Chunk(line, Room(st)) == |line|;
    ParseTrimmed(x);
    var next := if |x| == 1 then st else if Continues(x) then st.(pending := Kept(x))
                else Entered(st.(pending := ""), ParseLine(x));
    if |x| > 1 && Continues(x) { TrimReady(x); }
    hide ParseLine, Chunk, Load, TrimEnd;
    LoadOnce(line, "", st, next);
    LoadEnd(next);
  }

  // ----- lines that change nothing, and lines that spoil the file -----

  /** Nothing but blanks, or a remark behind them. */
  predicate Harmless(x: string) {
    Strip(x) == "" || Remarked(Strip(x))
  }

  /** Neither harmless nor in brackets, and without a sign of equality behind some other character. */
  predicate Spoilt(x: string) {
    var b := Strip(x);
    b != "" && !Remarked(b) && !Bracketed(b) && !Assigned(b)
  }

  lemma KindOf(x: string)
    ensures Harmless(x) <==> ParseLine(x).EmptyLine? || ParseLine(x).CommentLine?
    ensures Spoilt(x) <==> ParseLine(x).ErrorLine?
  {
    hide ParseLine, Strip;
    var a, c := StripSplits(x);
    LineExactly(a, Strip(x), c);
  }

  /** Loading goes on behind a blank line or a remark as if it were not there. */
  lemma LoadHarmless(line: string, rest: string, st: State)
    requires Ready(st) && st.pending == "" && Fits(line, st) && NulFree(rest) && Harmless(line) && !Continues(line)
    ensures NulFree(line + "\n" + rest) && Load(line + "\n" + rest, st) == Load(rest, st)
  {
    hide Load, ParseLine, Harmless, Continues;
    assert st.pending + line == line;
    KindOf(line);
    LoadLine(line, rest, st);
    assert st.(pending := "") == st;
  }

  lemma LoadBlank(rest: string, st: State)
    requires Ready(st) && st.pending == "" && NulFree(rest)
    ensures NulFree("\n" + rest) && Load("\n" + rest, st) == Load(rest, st)
  {
    hide Load;
    assert "" + "\n" + rest == "\n" + rest;
    LoadHarmless("", rest, st);
  }

  lemma TurnCounts(st: State, full: string, filled: bool)
    requires Turn(st, full, filled).Next?
    ensures Turn(st, full, filled).state.errs >= st.errs
  {
    hide ParseLine, TrimEnd;
  }

  /** No error is forgiven. */
  lemma {:induction false} LoadSpoilt(text: string, st: State)
    requires Ready(st) && NulFree(text) && st.errs > 0
    ensures Load(text, st) == None
    decreases |text|
  {
    hide Turn;
    if text != "" {
      var n := Chunk(text, Room(st));
      var full := st.pending + text[..n];
      TurnReady(st, full, n == Room(st));
      if Turn(st, full, n == Room(st)).Next? {
        TurnCounts(st, full, n == Room(st));
        LoadSpoilt(text[n..], Turn(st, full, n == Room(st)).state);
      }
    }
  }

  /** A file with a spoilt line is not loaded, whatever follows. */
  lemma LoadRefuses(line: string, rest: string, st: State)
    requires Ready(st) && Fits(line, st) && NulFree(rest) && !Continues(st.pending + line)
    requires Spoilt(st.pending + line)
    ensures NulFree(line + "\n" + rest) && Load(line + "\n" + rest, st) == None
  {
    hide Load, ParseLine, Spoilt, Continues;
    KindOf(st.pending + line);
    LoadLine(line, rest, st);
    LoadSpoilt(rest, Entered(st.(pending := ""), ParseLine(st.pending + line)));
  }

  // ----- whole files -----

  predicate WholeLine(x: string) {
    Fits(x, START) && !Continues(x)
  }

  function FileText(lines: seq<string>): string {
    if lines == [] then "" else lines[0] + "\n" + FileText(lines[1..])
  }

  function EnteredAll(st: State, lines: seq<string>): State
    decreases lines
  {
    if lines == [] then st else EnteredAll(Entered(st, ParseLine(lines[0])), lines[1..])
  }

  /** Lines are entered one after the other. */
  lemma {:induction false} LoadLines(lines: seq<string>, st: State)
    requires Ready(st) && st.pending == "" && forall i | 0 <= i < |lines| :: WholeLine(lines[i])
    ensures var end := EnteredAll(st, lines);
      NulFree(FileText(lines)) && Load(FileText(lines), st) == if end.errs > 0 then None else Some(end.dict)
    decreases lines
  {
    hide Load, ParseLine, Continues;
    if lines == [] {
      LoadEnd(st);
    } else {
      assert WholeLine(lines[0]);
      assert st.pending + lines[0] == lines[0] && st.(pending := "") == st;
      LoadLines(lines[1..], Entered(st, ParseLine(lines[0])));
      LoadLine(lines[0], FileText(lines[1..]), st);
    }
  }

  lemma {:induction false} ErrorsCounted(st: State, lines: seq<string>)
    ensures EnteredAll(st, lines).errs > 0 <==> st.errs > 0 || exists i :: 0 <= i < |lines| && Spoilt(lines[i])
    decreases lines
  {
    hide ParseLine, Spoilt;
    if lines != [] {
      KindOf(lines[0]);
      ErrorsCounted(Entered(st, ParseLine(lines[0])), lines[1..]);
      assert forall i | 1 <= i < |lines| :: lines[i] == lines[1..][i - 1];
    }
  }

  /** A file of whole lines is refused exactly if one of them is spoilt. */
  lemma LoadedExactly(lines: seq<string>)
    requires forall i | 0 <= i < |lines| :: WholeLine(lines[i])
    ensures NulFree(FileText(lines)) && Ready(START)
    ensures Load(FileText(lines), START).None? <==> exists i :: 0 <= i < |lines| && Spoilt(lines[i])
  {
    hide Load, Spoilt, WholeLine;
    StartReady();
    LoadLines(lines, START);
    ErrorsCounted(START, lines);
  }
}
