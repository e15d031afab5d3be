/** Printing into one growing buffer (`p != 0`): it yields the same text as printing by allocation. */
module JsonPrintBuffered {

  import opened Bits
  import opened CString
  import opened Json
  import opened JsonPrint
  import opened JsonWrite

  /** Sizes up to here are rounded up within the range of a 32-bit int. */
  const SIZE_LIMIT: nat := 0x4000_0000

  /** The slack that formatting a number asks for. */
  const NUMBER_SIZE: nat := 21

  class PrintBuffer {
    var buffer: array<char>
    var length: nat
    var offset: nat

    ghost predicate Valid()
      reads this
    {
      offset <= length == buffer.Length
    }

    constructor (prebuffer: nat)
      ensures Valid() && fresh(buffer) && length == prebuffer && offset == 0
    {
      buffer := new char[prebuffer];
      length := prebuffer;
      offset := 0;
    }

    /** The buffer may have been replaced, but what stands in front of `start` is still there. */
    twostate predicate Kept(start: nat)
      reads this, buffer
    {
      && Valid() && (buffer == old(buffer) || fresh(buffer))
      && old(length) <= length && start <= old(length) == old(buffer.Length)
      && forall i | 0 <= i < start :: buffer[i] == old(buffer[i])
    }

    /** Room for `needed` more characters, in a buffer of the next power of two where it has to grow. */
    method Ensure(needed: nat)
      requires Valid() && offset + needed <= SIZE_LIMIT
      modifies this
      ensures Kept(old(length)) && offset == old(offset) && offset + needed <= length
    {
      var total := needed + offset;
      if total <= length {
        return;
      }
      RoundsUp(total);
      var newsize := Pow2gt(total);
      var newbuffer := new char[newsize];
      forall i | 0 <= i < length {
        newbuffer[i] := buffer[i];
      }
      length := newsize;
      buffer := newbuffer;
    }

    /** Moves the offset to the end of the text that stands there. */
    method Update(ghost at: nat, ghost text: string)
      requires Valid() && at <= offset <= at + |text| && HoldsAt(buffer, at, text)
      modifies this`offset
      ensures Valid() && offset == at + |text|
    {
      var n := StrLen(buffer, offset, text[offset - at..]);
      offset := offset + n;
    }

    /** Behind `start` stands `done`, and the offset is at its end. */
    ghost predicate Has(start: nat, done: string)
      reads this, buffer
    {
      Valid() && offset == start + |done| && Wrote(buffer, start, done)
    }

    /** Appends characters after asking for `needed`; some places terminate the text, others do not. */
    method Append(text: string, needed: nat, terminate: bool, ghost start: nat, ghost done: string)
      requires Has(start, done) && offset + needed <= SIZE_LIMIT
      requires |text| + (if terminate then 1 else 0) <= needed
      modifies this, buffer
      ensures Kept(start) && Has(start, done + text)
    {
      Ensure(needed);
      PutText(buffer, start, offset, text, done);
      if terminate {
        buffer[offset + |text|] := NUL;
      }
      offset := offset + |text|;
    }

    /** Writes the end of a text without moving the offset. */
    method Finish(text: string, needed: nat, ghost start: nat, ghost done: string)
      requires Has(start, done) && offset + needed <= SIZE_LIMIT
      requires |text| + 1 <= needed && NulFree(done + text)
      modifies this, buffer
      ensures Kept(start) && start <= offset <= start + |done + text|
      ensures HoldsAt(buffer, start, done + text)
    {
      Ensure(needed);
      PutText(buffer, start, offset, text, done);
      buffer[offset + |text|] := NUL;
    }
  }

  lemma RoundsUp(x: nat)
    requires 0 < x <= SIZE_LIMIT
    ensures x <= Pow2gt(x) <= SIZE_LIMIT
  {
    assert Pow2(30) == SIZE_LIMIT by { Pow2Adds(15, 15); Pow2Adds(7, 8); Pow2Adds(3, 4); Pow2Adds(4, 4); }
    var k := BitLength(x, 30);
    Pow2gtIsLeast(x, k);
    Pow2Monotone(k, 30);
  }

  /** What every printing step leaves behind: the text from `start` on, with the offset inside it. */
  twostate predicate Printed(p: PrintBuffer, start: nat, text: string)
    reads p, p.buffer
  {
    p.Kept(start) && start <= p.offset <= start + |text| && HoldsAt(p.buffer, start, text)
  }

  method PrintScalarText(p: PrintBuffer, text: string, needed: nat)
    requires p.Valid() && NulFree(text) && |text| < needed && p.offset + needed <= SIZE_LIMIT
    modifies p, p.buffer
    ensures Printed(p, old(p.offset), text)
  {
    p.Ensure(needed);
    StrCpy(p.buffer, p.offset, text);
  }

  method PrintStringPtr(p: PrintBuffer, str: string)
    requires p.Valid() && NulFree(str) && p.offset + |PrintString(str)| + 1 <= SIZE_LIMIT
    modifies p, p.buffer
    ensures Printed(p, old(p.offset), PrintString(str))
  {
    var flag, len := MeasureString(str);
    p.Ensure(len + 3);
    WriteString(p.buffer, p.offset, str, flag);
  }

  method PrintValueTo(p: PrintBuffer, t: Json, depth: nat, fmt: bool)
    requires p.Valid() && Printable(t)
    requires p.offset + |PrintValue(t, depth, fmt)| + NUMBER_SIZE <= SIZE_LIMIT
    modifies p, p.buffer
    ensures Printed(p, old(p.offset), PrintValue(t, depth, fmt))
    decreases t, 1
  {
    match t {
      case Null => PrintScalarText(p, "null", 5);
      case False => PrintScalarText(p, "false", 6);
      case True => PrintScalarText(p, "true", 5);
      case Number(d) =>
        NumberShape(d);
        if d == 0.0 { PrintScalarText(p, "0", 2); } else { PrintScalarText(p, Decimal(d.Floor), NUMBER_SIZE); }
      case Str(s) => PrintStringPtr(p, s);
      case Arr(_) => PrintArrayTo(p, t, depth, fmt);
      case Obj(_) => PrintObjectTo(p, t, depth, fmt);
    }
  }

  method PrintArrayTo(p: PrintBuffer, t: Json, depth: nat, fmt: bool)
    requires p.Valid() && t.Arr? && Printable(t)
    requires p.offset + |PrintValue(t, depth, fmt)| + NUMBER_SIZE <= SIZE_LIMIT
    modifies p, p.buffer
    ensures Printed(p, old(p.offset), PrintValue(t, depth, fmt))
    decreases t, 0
  {
    hide PrintItems, HoldsAt, Wrote;
    if |t.items| == 0 {
      PrintScalarText(p, "[]", 3);
      return;
    }
    PrintNulFree(t, depth, fmt);
    ghost var start := p.offset;
    ghost var items := t.items;
    HasNothing(p);
    p.Append("[", 1, false, start, "");
    ghost var done := "" + "[";
    assert items[0..] == items;
    for i := 0 to |t.items|
      invariant p.Kept(start) && p.Has(start, done)
      invariant done + PrintItems(items[i..], depth + 1, fmt) == "[" + PrintItems(items, depth + 1, fmt)
    {
      ItemNext(items, i, depth + 1, fmt, done);
      PrintItemTo(p, t.items[i], depth + 1, fmt, i + 1 < |t.items|, start, done, |PrintValue(t, depth, fmt)|);
      done := done + ItemText(items[i], depth + 1, fmt, i == |items| - 1);
    }
    NothingLeft(done, depth + 1, fmt);
    p.Finish("]", 2, start, done);
  }

  lemma HasNothing(p: PrintBuffer)
    requires p.Valid()
    ensures p.Has(p.offset, "")
  {}

  /** A value behind what stands there already, and the offset moved to its end. */
  method PrintNextValue(p: PrintBuffer, t: Json, depth: nat, fmt: bool, ghost start: nat, ghost done: string)
    requires Printable(t) && p.Has(start, done)
    requires p.offset + |PrintValue(t, depth, fmt)| + NUMBER_SIZE <= SIZE_LIMIT
    modifies p, p.buffer
    ensures p.Kept(start) && p.Has(start, done + PrintValue(t, depth, fmt))
    decreases t, 2
  {
    hide PrintValue;
    PrintValueTo(p, t, depth, fmt);
    p.Update(start + |done|, PrintValue(t, depth, fmt));
  }

  method PrintNextString(p: PrintBuffer, str: string, ghost start: nat, ghost done: string)
    requires NulFree(str) && p.Has(start, done)
    requires p.offset + |PrintString(str)| + 1 <= SIZE_LIMIT
    modifies p, p.buffer
    ensures p.Kept(start) && p.Has(start, done + PrintString(str))
  {
    hide PrintString;
    PrintStringPtr(p, str);
    p.Update(start + |done|, PrintString(str));
  }

  /** One item with its separator, when the whole text has `total` characters. */
  method PrintItemTo(p: PrintBuffer, t: Json, depth: nat, fmt: bool, more: bool,
                     ghost start: nat, ghost done: string, ghost total: nat)
    requires Printable(t) && p.Has(start, done)
    requires |done| + |ItemText(t, depth, fmt, !more)| < total && start + total + NUMBER_SIZE <= SIZE_LIMIT
    modifies p, p.buffer
    ensures p.Kept(start) && p.Has(start, done + ItemText(t, depth, fmt, !more))
    decreases t, 3
  {
    hide PrintValue, Wrote;
    ghost var text := PrintValue(t, depth, fmt);
    PrintNextValue(p, t, depth, fmt, start, done);
    if more {
      var len := if fmt then 2 else 1;
      p.Append(if fmt then ", " else ",", len + 1, true, start, done + text);
      Associate(done, text, ItemSeparator(fmt));
    } else {
      assert text + "" == text;
    }
  }

  method PrintObjectTo(p: PrintBuffer, t: Json, depth: nat, fmt: bool)
    requires p.Valid() && t.Obj? && Printable(t)
    requires p.offset + |PrintValue(t, depth, fmt)| + NUMBER_SIZE <= SIZE_LIMIT
    modifies p, p.buffer
    ensures Printed(p, old(p.offset), PrintValue(t, depth, fmt))
    decreases t, 0
  {
    hide PrintMembers, HoldsAt, Wrote, ObjectClose;
    PrintNulFree(t, depth, fmt);
    ghost var start := p.offset;
    if |t.members| == 0 {
      p.Ensure(if fmt then depth + 4 else 3);
      WriteEmptyObject(p.buffer, p.offset, depth, fmt);
      return;
    }
    ghost var members := t.members;
    CloseLength(depth, fmt);
    HasNothing(p);
    var len := if fmt then 2 else 1;
    p.Append(if fmt then "{\n" else "{", len + 1, true, start, "");
    ghost var done := "" + ObjectOpen(fmt);
    assert members[0..] == members;
    for i := 0 to |t.members|
      invariant p.Kept(start) && p.Has(start, done)
      invariant done + PrintMembers(members[i..], depth + 1, fmt) == ObjectOpen(fmt) + PrintMembers(members, depth + 1, fmt)
    {
      MemberNext(members, i, depth + 1, fmt, done);
      PrintMemberTo(p, t.members[i], depth + 1, fmt, i + 1 < |t.members|, start, done, |PrintValue(t, depth, fmt)|);
      done := done + MemberText(members[i], depth + 1, fmt, i == |members| - 1);
    }
    NothingLeft(done, depth + 1, fmt);
    FinishObject(p, depth, fmt, start, done);
  }

  lemma CloseLength(depth: nat, fmt: bool)
    ensures |ObjectClose(depth, fmt)| == if fmt then depth + 1 else 1
  {}

  method FinishObject(p: PrintBuffer, depth: nat, fmt: bool, ghost start: nat, ghost done: string)
    requires p.Has(start, done) && NulFree(done + ObjectClose(depth, fmt))
    requires p.offset + (if fmt then depth + 2 else 2) <= SIZE_LIMIT
    modifies p, p.buffer
    ensures p.Kept(start) && start <= p.offset <= start + |done + ObjectClose(depth, fmt)|
    ensures HoldsAt(p.buffer, start, done + ObjectClose(depth, fmt))
  {
    p.Finish((if fmt then Tabs(depth) else "") + "}", if fmt then depth + 2 else 2, start, done);
  }

  method PrintMemberTo(p: PrintBuffer, m: Member, depth: nat, fmt: bool, more: bool,
                       ghost start: nat, ghost done: string, ghost total: nat)
    requires NulFree(m.name) && Printable(m.value) && p.Has(start, done)
    requires |done| + |MemberText(m, depth, fmt, !more)| < total && start + total + NUMBER_SIZE <= SIZE_LIMIT
    modifies p, p.buffer
    ensures p.Kept(start) && p.Has(start, done + MemberText(m, depth, fmt, !more))
    decreases m, 0
  {
    hide PrintValue, PrintString, HoldsAt, Wrote;
    ghost var acc, value := done, PrintValue(m.value, depth, fmt);
    MemberTextLength(m, depth, fmt, !more);
    if fmt {
      p.Append(Tabs(depth), depth, false, start, acc);
      acc := acc + Tabs(depth);
    }
    PrintNextString(p, m.name, start, acc);
    acc := acc + PrintString(m.name);
    p.Append(if fmt then ":\t" else ":", if fmt then 2 else 1, false, start, acc);
    acc := acc + (if fmt then ":\t" else ":");
    PrintNextValue(p, m.value, depth, fmt, start, acc);
    acc := acc + value;
    var len := (if fmt then 1 else 0) + (if more then 1 else 0);
    p.Append((if more then "," else "") + (if fmt then "\n" else ""), len + 1, fmt, start, acc);
    MemberGrouping(done, m, depth, fmt, !more);
  }

  /** Both ways of printing agree: from any initial size on, the buffer ends up holding at its start
      the very text that printing by allocation returns. */
  method PrintBuffered(t: Json, prebuffer: nat, fmt: bool) returns (p: PrintBuffer)
    requires prebuffer >= 1 && Printable(t)
    requires |PrintValue(t, 0, fmt)| + NUMBER_SIZE <= SIZE_LIMIT
    ensures fresh(p) && Holds(p.buffer, PrintValue(t, 0, fmt))
  {
    p := new PrintBuffer(prebuffer);
    PrintValueTo(p, t, 0, fmt);
  }
}
