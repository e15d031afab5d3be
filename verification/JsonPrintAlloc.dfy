/** Printing into freshly allocated buffers (`p == 0`): the sizes are computed before the text is put together. */
module JsonPrintAlloc {

  import opened CString
  import opened Json
  import opened JsonPrint
  import opened JsonWrite

  /** How many bytes of the allocation stay unused behind the terminator. */
  function Spare(t: Json, depth: nat, fmt: bool): int
    requires Printable(t)
  {
    match t
    case Number(d) => if d == 0.0 then 0 else 20 - |PrintNumber(d)|
    case Arr(items) => if items == [] then 0 else |items| + (if fmt then 4 else 3)
    case Obj(members) => if members != [] then 5 else if fmt && depth > 0 then 1 else 0
    case _ => 0
  }

  method StrDup(text: string) returns (copy: array<char>)
    requires NulFree(text)
    ensures fresh(copy) && Holds(copy, text) && copy.Length == |text| + 1
  {
    copy := new char[|text| + 1];
    StrCpy(copy, 0, text);
  }

  method AllocNumber(d: real) returns (out: array<char>)
    requires IsInt32(d)
    ensures fresh(out) && Holds(out, PrintNumber(d))
    ensures out.Length == |PrintNumber(d)| + 1 + Spare(Number(d), 0, false)
  {
    NumberShape(d);
    if d == 0.0 {
      out := new char[2];
      StrCpy(out, 0, "0");
    } else {
      out := new char[21];
      StrCpy(out, 0, Decimal(d.Floor));
    }
  }

  /** The literal and its terminator fill the allocation exactly. */
  method AllocString(str: string) returns (out: array<char>)
    requires NulFree(str)
    ensures fresh(out) && Holds(out, PrintString(str)) && out.Length == |PrintString(str)| + 1
  {
    var flag, len := MeasureString(str);
    out := new char[len + 3];
    WriteString(out, 0, str, flag);
  }

  method AllocValue(t: Json, depth: nat, fmt: bool) returns (out: array<char>)
    requires Printable(t)
    ensures fresh(out) && Holds(out, PrintValue(t, depth, fmt))
    ensures out.Length == |PrintValue(t, depth, fmt)| + 1 + Spare(t, depth, fmt)
    decreases t, 1
  {
    match t {
      case Null => out := StrDup("null");
      case False => out := StrDup("false");
      case True => out := StrDup("true");
      case Number(d) => out := AllocNumber(d);
      case Str(s) => out := AllocString(s);
      case Arr(items) => out := AllocArray(t, depth, fmt);
      case Obj(members) => out := AllocObject(t, depth, fmt);
    }
  }

  /** The buffers hold the texts of the first items. */
  ghost predicate HoldItems(entries: seq<array<char>>, items: seq<Json>, depth: nat, fmt: bool)
    requires |entries| <= |items| && forall i | 0 <= i < |items| :: Printable(items[i])
    reads entries
  {
    forall k | 0 <= k < |entries| :: Holds(entries[k], PrintValue(items[k], depth, fmt))
  }

  /** The texts of all items and the size that their sum suggests. */
  method AllocItems(items: seq<Json>, depth: nat, fmt: bool) returns (entries: seq<array<char>>, len: nat)
    requires items != [] && forall i | 0 <= i < |items| :: Printable(items[i])
    ensures |entries| == |items| && HoldItems(entries, items, depth, fmt)
    ensures forall k | 0 <= k < |entries| :: fresh(entries[k])
    ensures len == |PrintItems(items, depth, fmt)| + |items| + (if fmt then 7 else 6)
    decreases items, 0
  {
    hide PrintValue, PrintItems;
    entries, len := [], 5;
    assert items[0..] == items;
    ghost var total := |PrintItems(items, depth, fmt)|;
    while |entries| < |items|
      invariant |entries| <= |items| && HoldItems(entries, items, depth, fmt)
      invariant forall k | 0 <= k < |entries| :: fresh(entries[k])
      invariant len + |PrintItems(items[|entries|..], depth, fmt)|
        == 5 + total + |entries| + (if |entries| == |items| then (if fmt then 2 else 1) else 0)
    {
      var i := |entries|;
      var ret := AllocValue(items[i], depth, fmt);
      var n := StrLen(ret, 0, PrintValue(items[i], depth, fmt));
      ItemNext(items, i, depth, fmt, "");
      entries := entries + [ret];
      len := len + n + 2 + (if fmt then 1 else 0);
    }
    NothingLeft("", depth, fmt);
  }

  method AllocArray(t: Json, depth: nat, fmt: bool) returns (out: array<char>)
    requires t.Arr? && Printable(t)
    ensures fresh(out) && Holds(out, PrintValue(t, depth, fmt))
    ensures out.Length == |PrintValue(t, depth, fmt)| + 1 + Spare(t, depth, fmt)
    decreases t, 0
  {
    if |t.items| == 0 {
      out := StrDup("[]");
      return;
    }
    var entries, len := AllocItems(t.items, depth + 1, fmt);
    out := new char[len];
    ComposeArray(out, entries, t.items, depth + 1, fmt);
    PrintNulFree(t, depth, fmt);
  }

  method ComposeArray(out: array<char>, entries: seq<array<char>>, items: seq<Json>, depth: nat, fmt: bool)
    requires items != [] && forall i | 0 <= i < |items| :: Printable(items[i])
    requires |entries| == |items| && HoldItems(entries, items, depth, fmt) && out !in entries
    requires |PrintItems(items, depth, fmt)| + 3 <= out.Length
    modifies out
    ensures var text := "[" + PrintItems(items, depth, fmt) + "]"; Wrote(out, 0, text) && out[|text|] == NUL
  {
    hide PrintValue, PrintItems;
    PutChar(out, 0, 0, '[', "");
    var ptr := 1;
    ghost var done := "[";
    assert items[0..] == items;
    for i := 0 to |entries|
      invariant ptr == |done| && Wrote(out, 0, done)
      invariant done + PrintItems(items[i..], depth, fmt) == "[" + PrintItems(items, depth, fmt)
      invariant HoldItems(entries, items, depth, fmt)
    {
      ghost var text := PrintValue(items[i], depth, fmt);
      ItemNext(items, i, depth, fmt, done);
      var tmplen := StrLen(entries[i], 0, text);
      PutHeld(out, ptr, entries[i], tmplen, text, done);
      Associate(done, text, ItemSeparator(fmt));
      assert text + "" == text;
      ptr, done := ptr + tmplen, done + text;
      if i != |entries| - 1 {
        PutText(out, 0, ptr, if fmt then ", " else ",", done);
        ptr, done := ptr + (if fmt then 2 else 1), done + ItemSeparator(fmt);
      }
    }
    NothingLeft(done, depth, fmt);
    PutChar(out, 0, ptr, ']', done);
    out[ptr + 1] := NUL;
  }

  ghost predicate HoldMembers(names: seq<array<char>>, entries: seq<array<char>>, members: seq<Member>, depth: nat, fmt: bool)
    requires |names| == |entries| <= |members|
    requires forall i | 0 <= i < |members| :: NulFree(members[i].name) && Printable(members[i].value)
    reads names, entries
  {
    && (forall k | 0 <= k < |names| :: Holds(names[k], PrintString(members[k].name)))
    && (forall k | 0 <= k < |entries| :: Holds(entries[k], PrintValue(members[k].value, depth, fmt)))
  }

  /** The texts of one member, and what they add to the size. */
  method AllocMember(m: Member, depth: nat, fmt: bool) returns (str: array<char>, ret: array<char>, len: nat)
    requires NulFree(m.name) && Printable(m.value)
    ensures fresh(str) && fresh(ret)
    ensures Holds(str, PrintString(m.name)) && Holds(ret, PrintValue(m.value, depth, fmt))
    ensures forall last :: len == |MemberText(m, depth, fmt, last)| + (if last then 1 else 0)
    decreases m, 0
  {
    hide PrintValue, PrintString, MemberText;
    str := AllocString(m.name);
    ret := AllocValue(m.value, depth, fmt);
    var n := StrLen(ret, 0, PrintValue(m.value, depth, fmt));
    var k := StrLen(str, 0, PrintString(m.name));
    len := n + k + 2 + (if fmt then 2 + depth else 0);
    MemberTextLength(m, depth, fmt, true);
    MemberTextLength(m, depth, fmt, false);
  }

  method AllocMembers(members: seq<Member>, depth: nat, fmt: bool)
    returns (names: seq<array<char>>, entries: seq<array<char>>, len: nat)
    requires members != []
    requires forall i | 0 <= i < |members| :: NulFree(members[i].name) && Printable(members[i].value)
    ensures |names| == |entries| == |members| && HoldMembers(names, entries, members, depth, fmt)
    ensures forall k | 0 <= k < |entries| :: fresh(names[k]) && fresh(entries[k])
    ensures len == |PrintMembers(members, depth, fmt)| + 8 + (if fmt then depth else 0)
    decreases members, 0
  {
    hide PrintValue, PrintString, PrintMembers, MemberText, HoldsAt;
    names, entries, len := [], [], 7 + if fmt then depth else 0;
    assert members[0..] == members;
    ghost var total := |PrintMembers(members, depth, fmt)|;
    while |entries| < |members|
      invariant |names| == |entries| <= |members| && HoldMembers(names, entries, members, depth, fmt)
      invariant forall k | 0 <= k < |entries| :: fresh(names[k]) && fresh(entries[k])
      invariant len + |PrintMembers(members[|entries|..], depth, fmt)|
        == 7 + (if fmt then depth else 0) + total + (if |entries| == |members| then 1 else 0)
    {
      MemberNext(members, |entries|, depth, fmt, "");
      var str, ret, more := AllocMember(members[|entries|], depth, fmt);
      names, entries := names + [str], entries + [ret];
      len := len + more;
    }
    NothingLeft("", depth, fmt);
  }

  method AllocObject(t: Json, depth: nat, fmt: bool) returns (out: array<char>)
    requires t.Obj? && Printable(t)
    ensures fresh(out) && Holds(out, PrintValue(t, depth, fmt))
    ensures out.Length == |PrintValue(t, depth, fmt)| + 1 + Spare(t, depth, fmt)
    decreases t, 0
  {
    PrintNulFree(t, depth, fmt);
    if |t.members| == 0 {
      out := new char[if fmt then depth + 4 else 3];
      WriteEmptyObject(out, 0, depth, fmt);
      return;
    }
    var names, entries, len := AllocMembers(t.members, depth + 1, fmt);
    out := new char[len];
    ComposeObject(out, names, entries, t.members, depth, fmt);
  }

  method ComposeMember(out: array<char>, from: nat, name: array<char>, entry: array<char>, m: Member,
                       depth: nat, fmt: bool, last: bool, ghost done: string) returns (ptr: nat)
    requires NulFree(m.name) && Printable(m.value)
    requires Holds(name, PrintString(m.name)) && Holds(entry, PrintValue(m.value, depth, fmt))
    requires out != name && out != entry
    requires from == |done| && Wrote(out, 0, done) && from + |MemberText(m, depth, fmt, last)| <= out.Length
    modifies out
    ensures ptr == from + |MemberText(m, depth, fmt, last)|
    ensures Wrote(out, 0, done + MemberText(m, depth, fmt, last))
  {
    hide PrintValue, PrintString, Wrote;
    ghost var text, value := PrintString(m.name), PrintValue(m.value, depth, fmt);
    ghost var acc := done;
    ptr := from;
    if fmt {
      ptr := PutTabs(out, 0, ptr, depth, acc);
      acc := acc + Tabs(depth);
    }
    var tmplen := StrLen(name, 0, text);
    PutHeld(out, ptr, name, tmplen, text, acc);
    ptr, acc := ptr + tmplen, acc + text;
    PutText(out, 0, ptr, if fmt then ":\t" else ":", acc);
    ptr, acc := ptr + (if fmt then 2 else 1), acc + (if fmt then ":\t" else ":");
    tmplen := StrLen(entry, 0, value);
    PutHeld(out, ptr, entry, tmplen, value, acc);
    ptr, acc := ptr + tmplen, acc + value;
    PutText(out, 0, ptr, MemberTail(last, fmt), acc);
    ptr := ptr + |MemberTail(last, fmt)|;
    MemberGrouping(done, m, depth, fmt, last);
  }

  /** Appends the C string in `src`. */
  method PutHeld(out: array<char>, ptr: nat, src: array<char>, n: nat, ghost text: string, ghost done: string)
    requires Holds(src, text) && n == |text| && src != out
    requires ptr == |done| && ptr + n <= out.Length && Wrote(out, 0, done)
    modifies out
    ensures Wrote(out, 0, done + text)
  {
    assert src[..n] == text;
    PutText(out, 0, ptr, src[..n], done);
  }

  method ComposeObject(out: array<char>, names: seq<array<char>>, entries: seq<array<char>>, members: seq<Member>,
                       depth: nat, fmt: bool)
    requires members != []
    requires forall i | 0 <= i < |members| :: NulFree(members[i].name) && Printable(members[i].value)
    requires |names| == |entries| == |members| && HoldMembers(names, entries, members, depth + 1, fmt)
    requires out !in names && out !in entries
    requires |PrintMembers(members, depth + 1, fmt)| + (if fmt then depth + 4 else 3) <= out.Length
    modifies out
    ensures var text := ObjectOpen(fmt) + PrintMembers(members, depth + 1, fmt) + ObjectClose(depth, fmt);
      Wrote(out, 0, text) && out[|text|] == NUL
  {
    hide PrintValue, PrintString, PrintMembers, MemberText, Wrote, ObjectClose;
    assert Wrote(out, 0, "") by { EmptyWrote(out); }
    PutText(out, 0, 0, if fmt then "{\n" else "{", "");
    var ptr := if fmt then 2 else 1;
    ghost var done := ObjectOpen(fmt);
    assert "" + done == done && members[0..] == members;
    for i := 0 to |entries|
      invariant ptr == |done| && Wrote(out, 0, done)
      invariant done + PrintMembers(members[i..], depth + 1, fmt) == ObjectOpen(fmt) + PrintMembers(members, depth + 1, fmt)
      invariant HoldMembers(names, entries, members, depth + 1, fmt)
    {
      MemberNext(members, i, depth + 1, fmt, done);
      ptr := ComposeMember(out, ptr, names[i], entries[i], members[i], depth + 1, fmt, i == |entries| - 1, done);
      done := done + MemberText(members[i], depth + 1, fmt, i == |entries| - 1);
    }
    NothingLeft(done, depth + 1, fmt);
    CloseObject(out, ptr, depth, fmt, done);
  }

  lemma EmptyWrote(out: array<char>)
    ensures Wrote(out, 0, "")
  {}

  method CloseObject(out: array<char>, from: nat, depth: nat, fmt: bool, ghost done: string)
    requires from == |done| && Wrote(out, 0, done) && from + (if fmt then depth + 2 else 2) <= out.Length
    modifies out
    ensures var text := done + ObjectClose(depth, fmt); Wrote(out, 0, text) && out[|text|] == NUL
  {
    var ptr := from;
    ghost var acc := done;
    if fmt {
      ptr := PutTabs(out, 0, ptr, depth, acc);
      acc := acc + Tabs(depth);
    }
    PutChar(out, 0, ptr, '}', acc);
    out[ptr + 1] := NUL;
    assert acc + "}" == done + ObjectClose(depth, fmt);
  }
}
