/** Writing scalars into a character buffer, as the printers of both modes do. */
module JsonWrite {

  import opened CString
  import opened Json
  import opened JsonPrint
  import opened JsonScalars

  // ----- printed texts contain no terminator -----

  lemma {:induction false} DigitsShape(n: nat)
    ensures NulFree(Digits(n)) && AllDigits(Digits(n))
    ensures n < 10 ==> |Digits(n)| == 1
    ensures n >= 10 ==> |Digits(n)| == |Digits(n / 10)| + 1
  {
    if n >= 10 { DigitsShape(n / 10); }
  }

  /** `%d` needs at most eleven characters for 32 bits. */
  lemma NumberShape(d: real)
    requires IsInt32(d)
    ensures NulFree(PrintNumber(d)) && 0 < |PrintNumber(d)| <= 11
  {
    var n := d.Floor;
    var m: nat := if n < 0 then -n else n;
    DigitsShape(m);
    DigitsBelow(m, 10);
  }

  lemma {:induction false} DigitsBelow(n: nat, k: nat)
    requires 1 <= k && n < PowerOfTen(k)
    ensures |Digits(n)| <= k
  {
    if n >= 10 { DigitsBelow(n / 10, k - 1); }
  }

  function PowerOfTen(k: nat): nat {
    if k == 0 then 1 else 10 * PowerOfTen(k - 1)
  }

  lemma {:induction false} EscapeNulFree(s: string)
    requires NulFree(s)
    ensures NulFree(Escape(s))
  {
    if s != "" {
      EscapeCharNulFree(s[0]);
      EscapeNulFree(s[1..]);
    }
  }

  lemma EscapeCharNulFree(c: char)
    requires c != NUL
    ensures NulFree(EscapeChar(c)) && 1 <= |EscapeChar(c)| <= 6
  {
    if c < ' ' { Hex4Plain(c as int); }
  }

  lemma {:induction false} PrintNulFree(t: Json, depth: nat, fmt: bool)
    requires Printable(t)
    ensures NulFree(PrintValue(t, depth, fmt)) && PrintValue(t, depth, fmt) != ""
    decreases t, 0
  {
    hide PrintItems, PrintMembers, EmptyObject, PrintNumber, Escape;
    match t
    case Number(d) => NumberShape(d);
    case Str(s) => EscapeNulFree(s);
    case Arr(items) =>
      ItemsNulFree(items, depth + 1, fmt);
    case Obj(members) =>
      BracesNulFree(depth, fmt);
      MembersNulFree(members, depth + 1, fmt);
    case _ =>
  }

  lemma BracesNulFree(depth: nat, fmt: bool)
    ensures NulFree(EmptyObject(depth, fmt)) && EmptyObject(depth, fmt) != ""
    ensures NulFree(ObjectClose(depth, fmt))
  {}

  lemma {:induction false} ItemsNulFree(items: seq<Json>, depth: nat, fmt: bool)
    requires forall i | 0 <= i < |items| :: Printable(items[i])
    ensures NulFree(PrintItems(items, depth, fmt))
    decreases items, 0
  {
    hide PrintValue;
    if items != [] {
      PrintNulFree(items[0], depth, fmt);
      ItemsNulFree(items[1..], depth, fmt);
    }
  }

  lemma {:induction false} MembersNulFree(members: seq<Member>, depth: nat, fmt: bool)
    requires forall i | 0 <= i < |members| :: NulFree(members[i].name) && Printable(members[i].value)
    ensures NulFree(PrintMembers(members, depth, fmt))
    decreases members, 0
  {
    hide PrintValue, MemberHead;
    if members != [] {
      HeadNulFree(members[0].name, depth, fmt);
      PrintNulFree(members[0].value, depth, fmt);
      MembersNulFree(members[1..], depth, fmt);
    }
  }

  lemma HeadNulFree(name: string, depth: nat, fmt: bool)
    requires NulFree(name)
    ensures NulFree(MemberHead(name, depth, fmt))
  {
    hide Escape;
    EscapeNulFree(name);
  }

  // ----- writing -----

  /** `*ptr++ = c` behind what stands from `at` on. */
  method PutChar(out: array<char>, ghost at: nat, ptr: nat, c: char, ghost done: string)
    requires ptr == at + |done| < out.Length && Wrote(out, at, done)
    modifies out
    ensures Wrote(out, at, done + [c])
    ensures forall i | 0 <= i < out.Length && i != ptr :: out[i] == old(out[i])
  {
    out[ptr] := c;
  }

  /** `memcpy` or the characters of `strcpy`. */
  method PutText(out: array<char>, ghost at: nat, ptr: nat, text: string, ghost done: string)
    requires ptr == at + |done| && ptr + |text| <= out.Length && Wrote(out, at, done)
    modifies out
    ensures Wrote(out, at, done + text)
    ensures forall i | 0 <= i < out.Length && !(ptr <= i < ptr + |text|) :: out[i] == old(out[i])
  {
    forall i | ptr <= i < ptr + |text| {
      out[i] := text[i - ptr];
    }
  }

  /** First passes of `print_string_ptr`: whether escapes are needed, and the size of the body. */
  method MeasureString(str: string) returns (flag: bool, len: nat)
    requires NulFree(str)
    ensures len == |Escape(str)|
    ensures !flag ==> Escape(str) == str
  {
    hide Escape, EscapeChar;
    flag := false;
    var ptr := 0;
    while At(str, ptr) != NUL
      invariant ptr <= |str|
      invariant flag <==> exists i | 0 <= i < ptr :: NeedsEscape(str[i])
      decreases |str| - ptr
    {
      flag := flag || NeedsEscape(str[ptr]);
      ptr := ptr + 1;
    }
    if !flag {
      len := ptr;
      EscapeNothing(str);
      return;
    }
    ptr, len := 0, 0;
    assert str[0..] == str;
    while At(str, ptr) != NUL
      invariant ptr <= |str| && len + |Escape(str[ptr..])| == |Escape(str)|
      decreases |str| - ptr
    {
      var token := str[ptr];
      len := len + 1;
      if token in "\"\\\U{0008}\U{000C}\n\r\t" { len := len + 1; } else if token < ' ' { len := len + 5; }
      EscapeLength(str, ptr);
      ptr := ptr + 1;
    }
    EscapeNothing("");
    assert str[ptr..] == "";
  }

  lemma EscapeLength(str: string, ptr: nat)
    requires ptr < |str| && str[ptr] != NUL
    ensures |Escape(str[ptr..])| == |Escape(str[ptr + 1..])| + 1
      + (if str[ptr] in "\"\\\U{0008}\U{000C}\n\r\t" then 1 else if str[ptr] < ' ' then 5 else 0)
  {
    assert str[ptr..][1..] == str[ptr + 1..];
  }

  lemma {:induction false} EscapeNothing(s: string)
    requires forall i | 0 <= i < |s| :: !NeedsEscape(s[i])
    ensures Escape(s) == s
  {
    if s != "" { EscapeNothing(s[1..]); }
  }

  /** Second pass of `print_string_ptr`, into space for exactly the literal and its terminator. */
  method WriteString(out: array<char>, at: nat, str: string, flag: bool)
    requires NulFree(str) && (!flag ==> Escape(str) == str)
    requires at + |Escape(str)| + 3 <= out.Length
    modifies out
    ensures HoldsAt(out, at, PrintString(str))
    ensures forall i | 0 <= i < at || at + |Escape(str)| + 3 <= i < out.Length :: out[i] == old(out[i])
  {
    EscapeNulFree(str);
    PutChar(out, at, at, '\"', "");
    if !flag {
      PutText(out, at, at + 1, str, "\"");
      PutChar(out, at, at + 1 + |str|, '\"', "\"" + str);
      out[at + 2 + |str|] := NUL;
      return;
    }
    var ptr, to := 0, at + 1;
    ghost var done := "\"";
    while At(str, ptr) != NUL
      invariant ptr <= |str| && to == at + |done| && Wrote(out, at, done)
      invariant done + Escape(str[ptr..]) == "\"" + Escape(str)
      invariant forall i | 0 <= i < at || at + |Escape(str)| + 3 <= i < out.Length :: out[i] == old(out[i])
      decreases |str| - ptr
    {
      assert str[ptr..][1..] == str[ptr + 1..] && str[ptr..][0] == str[ptr];
      Associate(done, EscapeChar(str[ptr]), Escape(str[ptr + 1..]));
      to := WriteChar(out, at, to, str[ptr], done);
      done := done + EscapeChar(str[ptr]);
      ptr := ptr + 1;
    }
    assert done == "\"" + Escape(str) by { assert done + "" == done; }
    PutChar(out, at, to, '\"', done);
    out[to + 1] := NUL;
  }

  /** One character, escaped where it has to be. */
  method WriteChar(out: array<char>, ghost at: nat, ptr: nat, c: char, ghost done: string) returns (to: nat)
    requires c != NUL && ptr == at + |done| && ptr + |EscapeChar(c)| <= out.Length && Wrote(out, at, done)
    modifies out
    ensures to == ptr + |EscapeChar(c)| && Wrote(out, at, done + EscapeChar(c))
    ensures forall i | 0 <= i < out.Length && !(ptr <= i < to) :: out[i] == old(out[i])
  {
    if c >= ' ' && c != '\"' && c != '\\' {
      PutChar(out, at, ptr, c, done);
      to := ptr + 1;
    } else {
      PutChar(out, at, ptr, '\\', done);
      var code: char;
      match c {
        case '\\' => code := '\\';
        case '\"' => code := '\"';
        case '\U{0008}' => code := 'b';
        case '\U{000C}' => code := 'f';
        case '\n' => code := 'n';
        case '\r' => code := 'r';
        case '\t' => code := 't';
        case _ => code := NUL;
      }
      if code != NUL {
        PutChar(out, at, ptr + 1, code, done + "\\");
        assert done + "\\" + [code] == done + EscapeChar(c);
        to := ptr + 2;
      } else {
        PutText(out, at, ptr + 1, "u" + Hex4(c as int), done + "\\");
        assert done + "\\" + ("u" + Hex4(c as int)) == done + EscapeChar(c);
        to := ptr + 6;
      }
    }
  }

  /** A run of tabs. */
  method PutTabs(out: array<char>, ghost at: nat, ptr: nat, n: int, ghost done: string) returns (to: nat)
    requires ptr == at + |done| && Wrote(out, at, done)
    requires n >= 0 ==> ptr + n <= out.Length
    modifies out
    ensures var k := if n < 0 then 0 else n; to == ptr + k && Wrote(out, at, done + Tabs(k))
    ensures forall i | 0 <= i < out.Length && !(ptr <= i < to) :: out[i] == old(out[i])
  {
    to := ptr;
    ghost var k := 0;
    assert done + Tabs(0) == done;
    while to - ptr < n
      invariant to == ptr + k && k <= (if n < 0 then 0 else n) && Wrote(out, at, done + Tabs(k))
      invariant forall i | 0 <= i < out.Length && !(ptr <= i < to) :: out[i] == old(out[i])
    {
      assert done + Tabs(k) + "\t" == done + Tabs(k + 1);
      PutChar(out, at, to, '\t', done + Tabs(k));
      to, k := to + 1, k + 1;
    }
  }

  /** The empty object in space for it and its terminator. */
  method WriteEmptyObject(out: array<char>, at: nat, depth: nat, fmt: bool)
    requires at + (if fmt then depth + 4 else 3) <= out.Length
    modifies out
    ensures HoldsAt(out, at, EmptyObject(depth, fmt))
    ensures forall i | 0 <= i < at :: out[i] == old(out[i])
  {
    BracesNulFree(depth, fmt);
    PutChar(out, at, at, '{', "");
    var ptr := at + 1;
    ghost var done := "{";
    if fmt {
      PutChar(out, at, ptr, '\n', done);
      done := "{\n";
      ptr := PutTabs(out, at, ptr + 1, depth - 1, done);
      done := done + Tabs(if depth == 0 then 0 else depth - 1);
    }
    PutChar(out, at, ptr, '}', done);
    out[ptr + 1] := NUL;
    assert done + "}" == EmptyObject(depth, fmt);
  }

  // ----- items and members as they are put together -----

  /** One item with its separator. */
  function ItemText(t: Json, depth: nat, fmt: bool, last: bool): string
    requires Printable(t)
  {
    PrintValue(t, depth, fmt) + (if last then "" else ItemSeparator(fmt))
  }

  /** One member with its indentation and separator. */
  function MemberText(m: Member, depth: nat, fmt: bool, last: bool): string
    requires Printable(m.value)
  {
    MemberHead(m.name, depth, fmt) + PrintValue(m.value, depth, fmt) + MemberTail(last, fmt)
  }

  lemma MemberTextLength(m: Member, depth: nat, fmt: bool, last: bool)
    requires Printable(m.value)
    ensures |MemberText(m, depth, fmt, last)| == |PrintString(m.name)| + |PrintValue(m.value, depth, fmt)|
      + (if last then 1 else 2) + (if fmt then depth + 2 else 0)
  {
    hide PrintValue, PrintString;
  }

  /** The pieces of a member, appended one after the other. */
  lemma MemberGrouping(done: string, m: Member, depth: nat, fmt: bool, last: bool)
    requires Printable(m.value)
    ensures var acc1 := (if fmt then done + Tabs(depth) else done) + PrintString(m.name) + (if fmt then ":\t" else ":");
      var acc2 := acc1 + PrintValue(m.value, depth, fmt);
      acc2 + ((if last then "" else ",") + (if fmt then "\n" else "")) == done + MemberText(m, depth, fmt, last)
  {
    hide PrintValue, PrintString;
    var head, v, tail := MemberHead(m.name, depth, fmt), PrintValue(m.value, depth, fmt), MemberTail(last, fmt);
    var acc1 := (if fmt then done + Tabs(depth) else done) + PrintString(m.name) + (if fmt then ":\t" else ":");
    assert acc1 == done + head;
    assert acc1 + v + tail == done + (head + v + tail);
  }

  /** The i-th item is next in what remains to be written. */
  lemma ItemNext(items: seq<Json>, i: nat, depth: nat, fmt: bool, done: string)
    requires i < |items| && forall k | 0 <= k < |items| :: Printable(items[k])
    ensures var text := ItemText(items[i], depth, fmt, i == |items| - 1);
      && PrintItems(items[i..], depth, fmt) == text + PrintItems(items[i + 1..], depth, fmt)
      && done + PrintItems(items[i..], depth, fmt) == done + text + PrintItems(items[i + 1..], depth, fmt)
  {
    hide PrintValue;
    assert items[i..][0] == items[i] && items[i..][1..] == items[i + 1..];
    Associate(done, ItemText(items[i], depth, fmt, i == |items| - 1), PrintItems(items[i + 1..], depth, fmt));
  }

  lemma MemberNext(members: seq<Member>, i: nat, depth: nat, fmt: bool, done: string)
    requires i < |members|
    requires forall k | 0 <= k < |members| :: NulFree(members[k].name) && Printable(members[k].value)
    ensures var text := MemberText(members[i], depth, fmt, i == |members| - 1);
      && PrintMembers(members[i..], depth, fmt) == text + PrintMembers(members[i + 1..], depth, fmt)
      && done + PrintMembers(members[i..], depth, fmt) == done + text + PrintMembers(members[i + 1..], depth, fmt)
  {
    hide PrintValue, MemberHead, MemberTail;
    assert members[i..][0] == members[i] && members[i..][1..] == members[i + 1..];
    Associate(done, MemberText(members[i], depth, fmt, i == |members| - 1), PrintMembers(members[i + 1..], depth, fmt));
  }

  lemma NothingLeft(done: string, depth: nat, fmt: bool)
    ensures done + PrintItems([], depth, fmt) == done
    ensures done + PrintMembers([], depth, fmt) == done
  {}
}
