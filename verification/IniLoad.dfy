/** `iniparser_load_file`: a file is read piece by piece into a line buffer, and lines into a dictionary. */
module IniLoad {

  import opened CString
  import opened IniDictionary
  import opened IniLine
  import opened IniText

  /** What `fgets` takes when there is room for so many characters: at most a line, with its line break. */
  function Chunk(text: string, room: nat): (n: nat)
    ensures n <= |text| && n <= room
    ensures forall i | 0 <= i < n - 1 :: text[i] != '\n'
    ensures n < |text| && n < room ==> n > 0 && text[n - 1] == '\n'
    ensures text != "" && room > 0 ==> n > 0
  {
    if text == "" || room == 0 then 0 else if text[0] == '\n' then 1 else 1 + Chunk(text[1..], room - 1)
  }

  /** What the loader knows between two reads: a line to be continued, the section, the entries, the errors. */
  datatype State = State(pending: string, section: string, dict: map<string, Option<string>>, errs: nat)

  const START := State("", "", map[], 0)

  function Entered(st: State, l: Line): State {
    match l
    case SectionLine(name) => st.(section := name, dict := st.dict[name := None])
    case ValueLine(key, value) => st.(dict := st.dict[st.section + ":" + key := Some(value)])
    case ErrorLine => st.(errs := st.errs + 1)
    case _ => st
  }

  datatype Read = TooLong | Next(state: State)

  /** The turn of the loop after `n` characters were read, which makes the buffer hold `full`. */
  function Turn(st: State, full: string, filled: bool): Read {
    if |full| <= 1 then Next(st)
    else if full[|full| - 1] != '\n' && filled then TooLong
    else
      var t := TrimEnd(full);
      if t != "" && t[|t| - 1] == '\\' then Next(st.(pending := t[..|t| - 1]))
      else Next(Entered(st.(pending := ""), ParseLine(t)))
  }

  function Room(st: State): int {
    ASCIILINESZ - 1 - |st.pending|
  }

  predicate Ready(st: State) {
    Room(st) > 0 && OneLine(st.pending) && NulFree(st.pending)
  }

  lemma TurnReady(st: State, full: string, filled: bool)
    requires Ready(st) && |full| < ASCIILINESZ && NulFree(full) && OneLine(full[..|full| - (if full == "" then 0 else 1)])
    ensures Turn(st, full, filled).Next? ==> Ready(Turn(st, full, filled).state)
  {
    hide ParseLine;
  }

  /** The dictionary that the rest of a file leads to, if there is no error in it. */
  function Load(text: string, st: State): Option<map<string, Option<string>>>
    requires Ready(st) && NulFree(text)
    decreases |text|
  {
    if text == "" then (if st.errs > 0 then None else Some(st.dict))
    else
      var n := Chunk(text, Room(st));
      TurnReady(st, st.pending + text[..n], n == Room(st));
      match Turn(st, st.pending + text[..n], n == Room(st))
      case TooLong => None
      case Next(st') => Load(text[n..], st')
  }

  // ----- the loader -----

  /** `fgets(line + at, n, in)`, from a position of the file on. */
  method FGets(text: string, pos: nat, line: array<char>, at: nat, n: nat, ghost pending: string) returns (end: nat, eof: bool)
    requires pos <= |text| && NulFree(text) && NulFree(pending)
    requires n > 0 && at + n <= line.Length && at == |pending| && Wrote(line, 0, pending)
    modifies line
    ensures end == pos + Chunk(text[pos..], n - 1) && Holds(line, pending + text[pos..end])
    ensures end > pos && text[end - 1] != '\n' ==> (eof <==> end - pos < n - 1)
  {
    end := pos;
    ghost var m := Chunk(text[pos..], n - 1);
    while end < |text| && end - pos < n - 1 && (end == pos || text[end - 1] != '\n')
      invariant pos <= end <= pos + m && Wrote(line, 0, pending + text[pos..end])
    {
      assert end - pos < m by {
        assert forall i | pos <= i < pos + m - 1 :: text[pos..][i - pos] == text[i];
        assert text[pos..] != "" && n - 1 > 0 ==> m > 0;
        assert m < |text[pos..]| && m < n - 1 ==> text[pos..][m - 1] == text[pos + m - 1];
      }
      line[at + end - pos] := text[end];
      end := end + 1;
    }
    assert end == pos + m by {
      assert forall i | pos <= i < pos + m - 1 :: text[pos..][i - pos] == text[i];
    }
    line[at + end - pos] := NUL;
    eof := end == |text| && end - pos < n - 1 && (end == pos || text[end - 1] != '\n');
  }

  lemma TrimOne(x: string, last: nat)
    requires last < |x| && IsSpace(x[last])
    ensures TrimEnd(x[..last + 1]) == TrimEnd(x[..last])
  {
    assert x[..last + 1][..last] == x[..last];
  }

  lemma TrimNone(x: string)
    requires x == "" || !IsSpace(x[|x| - 1])
    ensures TrimEnd(x) == x
  {}

  /** Takes the blanks from the end of the line buffer; `len` is the index of its last character, or 0. */
  method TrimLine(line: array<char>, size: nat, ghost x: string) returns (len: nat)
    requires Holds(line, x) && size == |x|
    modifies line
    ensures Holds(line, TrimEnd(x)) && len == if TrimEnd(x) == "" then 0 else |TrimEnd(x)| - 1
  {
    hide TrimEnd;
    var last: int := size - 1;
    assert x[..size] == x;
    while last >= 0 && (line[last] == '\n' || IsSpace(line[last]))
      invariant -1 <= last < size && Holds(line, x[..last + 1]) && TrimEnd(x[..last + 1]) == TrimEnd(x)
      decreases last
    {
      TrimOne(x, last);
      line[last] := NUL;
      last := last - 1;
    }
    TrimNone(x[..last + 1]);
    len := if last < 0 then 0 else last;
  }

  /** `sprintf(tmp, "%s:%s", section, key)`: the buffer is large enough. */
  method EntryName(section: array<char>, key: array<char>, ghost sec: string, ghost k: string) returns (name: string)
    requires Holds(section, sec) && Holds(key, k) && |sec| < ASCIILINESZ && |k| < ASCIILINESZ
    ensures name == sec + ":" + k
  {
    var tmp := new char[ASCIILINESZ * 2 + 2];
    var n := StrLen(section, 0, sec);
    var m := StrLen(key, 0, k);
    StrCpy(tmp, 0, section[..n] + ":" + key[..m]);
    name := tmp[..n + 1 + m];
    assert section[..n] == sec && key[..m] == k;
    assert name == section[..n] + ":" + key[..m];
  }

  lemma SuffixNulFree(text: string, pos: nat)
    requires NulFree(text) && pos <= |text|
    ensures NulFree(text[pos..])
  {}

  /** One read of the loop. */
  lemma LoadStep(text: string, pos: nat, st: State, end: nat, full: string)
    requires pos < |text| && NulFree(text) && Ready(st)
    requires end == pos + Chunk(text[pos..], Room(st)) && full == st.pending + text[pos..end]
    ensures pos < end <= |text| && NulFree(text[pos..]) && NulFree(text[end..])
    ensures full != "" && NulFree(full) && |full| < ASCIILINESZ && OneLine(full[..|full| - 1])
    ensures var turn := Turn(st, full, end - pos == Room(st));
      if turn.TooLong? then Load(text[pos..], st) == None
      else Ready(turn.state) && Load(text[pos..], st) == Load(text[end..], turn.state)
  {
    hide Turn;
    SuffixNulFree(text, pos);
    SuffixNulFree(text, end);
    assert text[pos..][..end - pos] == text[pos..end] && text[pos..][end - pos..] == text[end..];
    assert forall i | pos <= i < end - 1 :: text[i] == text[pos..][i - pos];
    TurnReady(st, full, end - pos == Room(st));
  }

  lemma LoadEnd(st: State)
    requires Ready(st)
    ensures NulFree("") && Load("", st) == if st.errs > 0 then None else Some(st.dict)
  {}

  lemma StartReady()
    ensures Ready(START)
  {}

  lemma TrimmedLine(full: string)
    requires NulFree(full) && full != "" && OneLine(full[..|full| - 1])
    ensures NulFree(TrimEnd(full)) && OneLine(TrimEnd(full)) && |TrimEnd(full)| <= |full|
  {}

  /** The arrays of a dictionary. */
  function Slots(d: Dictionary): set<object>
    reads d
  {
    {d.key, d.val, d.hash}
  }

  /** A whole line: what it says is entered into the dictionary. */
  method EnterLine(line: array<char>, section: array<char>, key: array<char>, val: array<char>, dict: Dictionary,
                   ghost t: string, ghost st: State)
    returns (error: bool)
    requires Holds(line, t) && OneLine(t) && |t| < ASCIILINESZ
    requires ASCIILINESZ < section.Length && ASCIILINESZ < key.Length && ASCIILINESZ < val.Length
    requires key != val && key != section && val != section && line != section && line != key && line != val
    requires dict.Valid() && dict.Map() == st.dict && Holds(section, st.section) && |st.section| < ASCIILINESZ
    requires Slots(dict) !! {line, section, key, val}
    modifies section, key, val, dict, Slots(dict)
    ensures dict.Valid() && dict.Map() == Entered(st, ParseLine(t)).dict
    ensures Holds(section, Entered(st, ParseLine(t)).section) && |Entered(st, ParseLine(t)).section| < ASCIILINESZ
    ensures error == ParseLine(t).ErrorLine?
    ensures Slots(dict) !! {line, section, key, val}
    ensures forall o | o in Slots(dict) :: fresh(o) || o in old(Slots(dict))
  {
    hide ParseLine, Contents, OneLine, Count, Distinct, Hash;
    LineParts(t);
    var sta := ReadLine(line, section, key, val, t);
    error := false;
    ghost var l := ParseLine(t);
    match sta {
      case LineSection =>
        var name := ReadText(section, l.name);
        var r := dict.Set(Some(name), None);
      case LineValue =>
        var name := EntryName(section, key, st.section, l.key);
        var value := ReadText(val, l.value);
        var r := dict.Set(Some(name), Some(value));
      case LineError =>
        error := true;
      case _ =>
    }
  }

  /** What one read brings: nothing, an error, a line to be continued, or a whole line. */
  datatype Piece = Nothing | Oversized | Continued(len: nat) | Whole

  method ReadPiece(text: string, pos: nat, line: array<char>, last: nat, ghost st: State)
    returns (end: nat, piece: Piece, ghost next: State, ghost t: string)
    requires pos < |text| && NulFree(text) && Ready(st)
    requires ASCIILINESZ < line.Length && last == |st.pending| && Wrote(line, 0, st.pending)
    modifies line
    ensures pos < end <= |text| && NulFree(text[pos..]) && NulFree(text[end..])
    ensures piece.Oversized? ==> Load(text[pos..], st) == None
    ensures !piece.Oversized? ==> Ready(next) && Load(text[pos..], st) == Load(text[end..], next)
    ensures piece.Nothing? ==> next == st && Wrote(line, 0, st.pending)
    ensures piece.Continued? ==>
      next == st.(pending := next.pending) && piece.len == |next.pending| && Wrote(line, 0, next.pending)
    ensures piece.Whole? ==>
      Holds(line, t) && OneLine(t) && |t| < ASCIILINESZ && next == Entered(st.(pending := ""), ParseLine(t))
  {
    hide ParseLine, TrimEnd, Load, Chunk, OneLine, NulFree, Entered, Ready;
    RoomLeft(st);
    next, t := st, "";
    var eof;
    end, eof := FGets(text, pos, line, last, ASCIILINESZ - last, st.pending);
    ghost var full := st.pending + text[pos..end];
    LoadStep(text, pos, st, end, full);
    var size := StrLen(line, 0, full);
    if size <= 1 {
      assert Wrote(line, 0, st.pending);
      return end, Nothing, next, t;
    }
    if line[size - 1] != '\n' && !eof {
      return end, Oversized, next, t;
    }
    var len := TrimLine(line, size, full);
    t := TrimEnd(full);
    TrimmedLine(full);
    if line[len] == '\\' {
      piece := Continued(len);
      next := st.(pending := t[..len]);
    } else {
      piece := Whole;
      next := Entered(st.(pending := ""), ParseLine(t));
    }
  }

  lemma RoomLeft(st: State)
    requires Ready(st)
    ensures Room(st) > 0 && NulFree(st.pending)
  {}

  /** `iniparser_load_file` */
  method LoadFile(text: string) returns (dict: Dictionary?)
    requires NulFree(text)
    ensures dict == null <==> Load(text, START).None?
    ensures dict != null ==> fresh(dict) && dict.Valid() && dict.Map() == Load(text, START).value
  {
    hide ParseLine, Load, OneLine, NulFree, Ready, Holds, Dictionary.Valid, Dictionary.Map;
    hide TrimEnd;
    StartReady();
    var line := new char[ASCIILINESZ + 1](_ => NUL);
    var section := new char[ASCIILINESZ + 1](_ => NUL);
    var key := new char[ASCIILINESZ + 1](_ => NUL);
    var val := new char[ASCIILINESZ + 1](_ => NUL);
    HoldsNothing(section);
    dict := new Dictionary(0);
    var last, errs, pos := 0, 0, 0;
    ghost var st := START;
    assert text[0..] == text;
    assert fresh(Slots(dict)) && Slots(dict) !! {line, section, key, val};
    while pos < |text|
      invariant pos <= |text| && Ready(st) && NulFree(text[pos..]) && Load(text, START) == Load(text[pos..], st)
      invariant last == |st.pending| && Wrote(line, 0, st.pending)
      invariant Holds(section, st.section) && |st.section| < ASCIILINESZ
      invariant fresh(dict) && fresh(Slots(dict)) && Slots(dict) !! {line, section, key, val}
      invariant dict.Valid() && dict.Map() == st.dict && errs == st.errs
      decreases |text| - pos
    {
      var piece;
      ghost var next, t;
      pos, piece, next, t := ReadPiece(text, pos, line, last, st);
      assert dict.Valid() && dict.Map() == st.dict && Holds(section, st.section);
      match piece {
        case Nothing =>
        case Oversized =>
          return null;
        case Continued(len) =>
          last := len;
        case Whole =>
          var error := EnterLine(line, section, key, val, dict, t, st.(pending := ""));
          if error {
            errs := errs + 1;
          }
          forall i | 0 <= i < ASCIILINESZ {
            line[i] := NUL;
          }
          last := 0;
      }
      st := next;
    }
    LoadEnd(st);
    assert text[pos..] == "";
    if errs > 0 {
      dict := null;
    }
  }
}
