/** The printer: a buffer that grows on demand and the routines that render a value into it. */
module JsonPrinter {
  import opened Bytes
  import opened Unicode
  import opened JsonText

  const INT_MAX: nat := 0x7FFF_FFFF

  class PrintBuffer {
    var buffer: array<byte>
    var offset: nat
    var depth: nat
    const noalloc: bool
    const format: bool

    constructor (storage: array<byte>, noalloc: bool, format: bool)
      ensures buffer == storage && offset == 0 && depth == 0
      ensures this.noalloc == noalloc && this.format == format
    {
      this.buffer := storage;
      this.offset := 0;
      this.depth := 0;
      this.noalloc := noalloc;
      this.format := format;
    }

    /** The buffer can be asked for more room. */
    ghost predicate Ready()
      reads `buffer, `offset
    {
      buffer.Length <= INT_MAX && (offset < buffer.Length || (offset == 0 && buffer.Length == 0))
    }

    /** How long the buffer can become. */
    ghost function Capacity(): nat
      reads `buffer
    {
      if noalloc then buffer.Length else INT_MAX
    }

    /** The text `t` and a terminator stand behind `was`; the offset lies somewhere in that text. */
    ghost predicate Holds(was: bytes, t: bytes)
      reads this, buffer
    {
      Ready() && |was| + |t| < buffer.Length &&
      buffer[..|was| + |t|] == was + t && buffer[|was| + |t|] == NUL &&
      |was| <= offset <= |was| + |t|
    }

    /** What has been appended piece by piece is one text. */
    lemma HoldsTogether(was: bytes, t: bytes, u: bytes, w: bytes)
      requires Holds(was + t + u, w)
      ensures Holds(was, t + u + w)
    {
      assert was + t + u + w == was + (t + u + w);
    }

    /** Makes room for `needed` bytes and one more, growing the buffer to twice what is needed. */
    method Ensure(needed: nat) returns (ok: bool)
      requires Ready()
      modifies this`buffer
      ensures Ready() && Capacity() == old(Capacity()) && (buffer == old(buffer) || (fresh(buffer) && !noalloc))
      ensures ok <==> offset + needed + 1 <= Capacity()
      ensures ok ==> offset + needed < buffer.Length
      ensures offset <= buffer.Length && buffer[..offset] == old(buffer[..offset])
    {
      if buffer.Length > 0 && offset >= buffer.Length {
        return false;
      }
      if needed > INT_MAX {
        return false;
      }
      var room := needed + offset + 1;
      if room <= buffer.Length {
        return true;
      }
      if noalloc {
        return false;
      }
      var size: nat;
      if room > INT_MAX / 2 {
        if room <= INT_MAX {
          size := INT_MAX;
        } else {
          return false;
        }
      } else {
        size := room * 2;
      }
      buffer := Reallocate(buffer, size);
      return true;
    }

    /** A larger array that starts with the contents of the old one. */
    static method Reallocate(a: array<byte>, size: nat) returns (b: array<byte>)
      requires a.Length <= size
      ensures fresh(b) && b.Length == size && b[..a.Length] == a[..]
      ensures forall k :: 0 <= k <= a.Length ==> b[..k] == a[..k]
    {
      b := new byte[size];
      for i := 0 to a.Length
        invariant b[..i] == a[..i]
      {
        b[i] := a[i];
      }
      forall k | 0 <= k <= a.Length ensures b[..k] == a[..k] {
        assert b[..k] == b[..a.Length][..k];
      }
    }

    /** Writes bytes at the offset, which does not move. */
    method Put(t: bytes)
      requires offset + |t| <= buffer.Length
      modifies buffer
      ensures buffer[offset..offset + |t|] == t
      ensures forall k :: 0 <= k < buffer.Length && !(offset <= k < offset + |t|) ==> buffer[k] == old(buffer[k])
    {
      for i := 0 to |t|
        invariant forall k :: 0 <= k < i ==> buffer[offset + k] == t[k]
        invariant forall k :: 0 <= k < buffer.Length && !(offset <= k < offset + i) ==> buffer[k] == old(buffer[k])
      {
        buffer[offset + i] := t[i];
      }
    }

    /** Writes a text and its terminator at the offset, which does not move. */
    method Write(t: bytes)
      requires Ready() && offset + |t| < buffer.Length
      modifies buffer
      ensures Holds(old(buffer[..offset]), t)
    {
      Put(t);
      buffer[offset + |t|] := NUL;
      assert buffer[..offset + |t|] == buffer[..offset] + buffer[offset..offset + |t|];
    }

    /** Writes bytes at the offset and moves behind them. */
    method Append(t: bytes)
      requires Ready() && offset + |t| < buffer.Length
      modifies this`offset, buffer
      ensures Ready() && offset == old(offset) + |t|
      ensures buffer[..offset] == old(buffer[..offset]) + t
    {
      Put(t);
      assert buffer[..offset + |t|] == buffer[..offset] + buffer[offset..offset + |t|];
      offset := offset + |t|;
    }

    /** Moves the offset to the terminator. */
    method UpdateOffset(ghost was: bytes, ghost t: bytes)
      requires Holds(was, t) && NulFree(t)
      modifies this`offset
      ensures Holds(was, t) && offset == |was| + |t|
    {
      while buffer[offset] != NUL
        invariant |was| <= offset <= |was| + |t|
        decreases |was| + |t| - offset
      {
        assert offset < |was| + |t| ==> buffer[offset] == (was + t)[offset];
        offset := offset + 1;
      }
    }

    /** Writes one byte as it appears in a literal; the long escape also leaves a terminator behind it. */
    method WriteEscaped(b: byte, at: nat)
      requires b != NUL && at + |EscapeByte(b)| < buffer.Length
      modifies buffer
      ensures buffer[at..at + |EscapeByte(b)|] == EscapeByte(b)
      ensures forall k :: 0 <= k < buffer.Length && !(at <= k <= at + |EscapeByte(b)|) ==> buffer[k] == old(buffer[k])
    {
      if b > 31 && b != QUOTE && b != BACKSLASH {
        buffer[at] := b;
      } else {
        buffer[at] := BACKSLASH;
        var short := ShortEscape(b);
        if short.Some? {
          buffer[at + 1] := short.value;
        } else {
          buffer[at + 1] := LOWER_U;
          buffer[at + 2], buffer[at + 3] := 48, 48;
          buffer[at + 4], buffer[at + 5] := HexChar(b / 16), HexChar(b % 16);
          buffer[at + 6] := NUL;
        }
      }
    }

    /** Counts the bytes a C string takes and how many more its escapes need. */
    method Measure(s: bytes) returns (n: nat, extra: nat)
      ensures n == |CString(s)| && n + extra == |Escape(CString(s))|
    {
      hide Escape, EscapeByte, CString;
      ghost var c := CString(s);
      NothingEscaped(c);
      n, extra := 0, 0;
      while n < |s| && s[n] != NUL
        invariant n <= |c|
        invariant n + extra + |Escape(c[n..])| == |Escape(c)|
      {
        var b := s[n];
        EscapeStep(c, n);
        EscapedLength(b);
        if b == QUOTE || b == BACKSLASH || b == 8 || b == 12 || b == NEWLINE || b == RETURN || b == TAB {
          extra := extra + 1;
        } else if b < 32 {
          extra := extra + 5;
        }
        n := n + 1;
      }
    }

    /** Prints a string literal. */
    method PrintString(s: bytes) returns (ok: bool)
      requires Ready()
      modifies this`buffer, buffer
      ensures Ready() && Capacity() == old(Capacity()) && (buffer == old(buffer) || (fresh(buffer) && !noalloc))
      ensures ok <==> offset + |Quoted(s)| + 2 <= Capacity()
      ensures ok ==> Holds(old(buffer[..offset]), Quoted(s))
    {
      hide CString, EscapeByte, Escape, ShortEscape, Holds, Capacity;
      var n, extra := Measure(s);
      ok := Ensure(n + extra + 3);
      if !ok {
        return;
      }
      if extra == 0 {
        PlainQuoted(s, n);
        Write([QUOTE] + s[..n] + [QUOTE]);
      } else {
        WriteQuoted(s, n, n + extra);
      }
    }

    method WriteQuoted(s: bytes, n: nat, length: nat)
      requires Ready() && offset + length + 3 < buffer.Length
      requires n == |CString(s)| && length == |Escape(CString(s))|
      modifies buffer
      ensures Holds(old(buffer[..offset]), Quoted(s))
    {
      hide Escape, CString;
      ghost var was := buffer[..offset];
      buffer[offset] := QUOTE;
      WriteEscapes(s, n, offset + 1, length);
      buffer[offset + length + 1] := QUOTE;
      buffer[offset + length + 2] := NUL;
      assert buffer[..offset + length + 2] == was + ([QUOTE] + buffer[offset + 1..offset + length + 1] + [QUOTE]);
    }

    method WriteEscapes(s: bytes, n: nat, start: nat, ghost length: nat)
      requires n == |CString(s)| && length == |Escape(CString(s))| && start + length < buffer.Length
      modifies buffer
      ensures buffer[start..start + length] == Escape(CString(s))
      ensures forall k :: 0 <= k < start ==> buffer[k] == old(buffer[k])
    {
      hide Escape, EscapeByte, CString, ShortEscape;
      ghost var c := CString(s);
      var at := start;
      NothingEscaped(c);
      for i := 0 to n
        invariant start <= at && at + |Escape(c[i..])| == start + length
        invariant forall k :: 0 <= k < start ==> buffer[k] == old(buffer[k])
        invariant buffer[start..at] + Escape(c[i..]) == Escape(c)
      {
        ghost var done, e := buffer[start..at], EscapeByte(c[i]);
        EscapeStep(c, i);
        WriteEscaped(s[i], at);
        at := at + |EscapeByte(s[i])|;
        assert buffer[start..at] == done + e;
        assert done + e + Escape(c[i + 1..]) == done + (e + Escape(c[i + 1..]));
      }
      NothingEscaped(c);
    }

    /** Prints an integer; the offset moves behind it. */
    method PrintNumber(n: int) returns (ok: bool)
      requires Ready() && -INTEGER_BOUND < n < INTEGER_BOUND
      modifies this`buffer, this`offset, buffer
      ensures Ready() && Capacity() == old(Capacity()) && (buffer == old(buffer) || (fresh(buffer) && !noalloc))
      ensures ok <==> old(offset) + |NumberText(n)| + 2 <= Capacity()
      ensures ok ==> Holds(old(buffer[..offset]), NumberText(n))
    {
      hide NumberText;
      var t := NumberText(n);
      ok := Ensure(|t| + 1);
      if ok {
        Write(t);
        offset := offset + |t|;
      }
    }

    /** Renders a value. It succeeds exactly when the text and two more bytes fit the capacity. */
    method PrintValue(v: Value) returns (ok: bool)
      requires Ready() && Printable(v)
      modifies this, buffer
      ensures Ready() && Capacity() == old(Capacity()) && (buffer == old(buffer) || (fresh(buffer) && !noalloc))
      ensures ok <==> old(offset) + |Text(v, format, old(depth))| + 2 <= Capacity()
      ensures ok ==> depth == old(depth) && Holds(old(buffer[..offset]), Text(v, format, depth))
      decreases v, 1
    {
      hide Quoted, NumberText, ItemsText, MembersText;
      match v
      case Null => ok := PrintName(NULL_TEXT);
      case False => ok := PrintName(FALSE_TEXT);
      case True => ok := PrintName(TRUE_TEXT);
      case Number(n) => ok := PrintNumber(n);
      case Str(s) => ok := PrintString(s);
      case Array(items) => ok := PrintArray(items);
      case Object(members) => ok := PrintObject(members);
    }

    method PrintName(t: bytes) returns (ok: bool)
      requires Ready()
      modifies this`buffer, buffer
      ensures Ready() && Capacity() == old(Capacity()) && (buffer == old(buffer) || (fresh(buffer) && !noalloc))
      ensures ok <==> offset + |t| + 2 <= Capacity()
      ensures ok ==> Holds(old(buffer[..offset]), t)
    {
      ok := Ensure(|t| + 1);
      if ok {
        Write(t);
      }
    }

    method PrintArray(items: Items) returns (ok: bool)
      requires Ready() && PrintableItems(items)
      modifies this, buffer
      ensures Ready() && Capacity() == old(Capacity()) && (buffer == old(buffer) || (fresh(buffer) && !noalloc))
      ensures ok <==> old(offset) + |Text(Array(items), format, old(depth))| + 2 <= Capacity()
      ensures ok ==> depth == old(depth) && Holds(old(buffer[..offset]), Text(Array(items), format, depth))
      decreases items, 2
    {
      hide Text, ItemsText, Holds, PrintableItems, Printable, Capacity;
      ArrayText(items, format, depth);
      ghost var was := buffer[..offset];
      ok := AppendBytes([OPEN_BRACKET]);
      if !ok {
        return;
      }
      depth := depth + 1;
      ok := PrintItems(items);
      if !ok {
        return;
      }
      ok := PrintEnd([CLOSE_BRACKET]);
      if ok {
        HoldsTogether(was, [OPEN_BRACKET], ItemsText(items, format, depth + 1), [CLOSE_BRACKET]);
      }
    }

    /** The loop over the elements of an array. */
    method PrintItems(items: Items) returns (ok: bool)
      requires Ready() && PrintableItems(items)
      modifies this, buffer
      ensures Ready() && Capacity() == old(Capacity()) && (buffer == old(buffer) || (fresh(buffer) && !noalloc))
      ensures !ok ==> old(offset) + |ItemsText(items, format, old(depth))| + 2 > Capacity()
      ensures ok ==> depth == old(depth) && buffer[..offset] == old(buffer[..offset]) + ItemsText(items, format, depth)
      decreases items, 1
    {
      hide Text, ItemsText, Separator, Holds;
      ghost var goal := buffer[..offset] + ItemsText(items, format, depth);
      var current := items;
      ok := true;
      while current.Item?
        invariant Ready() && Capacity() == old(Capacity()) && (buffer == old(buffer) || (fresh(buffer) && !noalloc))
        invariant depth == old(depth) && PrintableItems(current) && (current == items || current < items)
        invariant ok && buffer[..offset] + ItemsText(current, format, depth) == goal
        decreases current
      {
        Regroup(buffer[..offset], current, format, depth);
        ok := PrintItem(current);
        if !ok {
          return;
        }
        current := current.next;
      }
      NoItemsText(current, format, depth);
    }

    /** Prints one element and what separates it from the next. */
    method PrintItem(item: Items) returns (ok: bool)
      requires Ready() && item.Item? && Printable(item.value)
      modifies this, buffer
      ensures Ready() && Capacity() == old(Capacity()) && (buffer == old(buffer) || (fresh(buffer) && !noalloc))
      ensures var t := Text(item.value, format, old(depth)) + (if item.next.NoItem? then [] else Separator(format));
        && (!ok ==> old(offset) + |t| + 2 > Capacity())
        && (ok ==> depth == old(depth) && buffer[..offset] == old(buffer[..offset]) + t)
      decreases item, 0
    {
      hide Text, Separator;
      ok := AppendValue(item.value);
      if !ok {
        return;
      }
      if item.next.Item? {
        ok := AppendText(Separator(format));
      }
    }

    /** Renders a value and moves behind it. */
    method AppendValue(v: Value) returns (ok: bool)
      requires Ready() && Printable(v)
      modifies this, buffer
      ensures Ready() && Capacity() == old(Capacity()) && (buffer == old(buffer) || (fresh(buffer) && !noalloc))
      ensures !ok ==> old(offset) + |Text(v, format, old(depth))| + 2 > Capacity()
      ensures ok ==> depth == old(depth) && buffer[..offset] == old(buffer[..offset]) + Text(v, format, depth)
      decreases v, 2
    {
      hide Text, NulFree;
      ghost var done, t := buffer[..offset], Text(v, format, depth);
      ok := PrintValue(v);
      if ok {
        TextIsNulFree(v, format, depth);
        UpdateOffset(done, t);
      }
    }

    /** Appends bytes without a terminator. */
    method AppendBytes(t: bytes) returns (ok: bool)
      requires Ready()
      modifies this`buffer, this`offset, buffer
      ensures Ready() && Capacity() == old(Capacity()) && (buffer == old(buffer) || (fresh(buffer) && !noalloc))
      ensures !ok ==> old(offset) + |t| + 1 > Capacity()
      ensures ok ==> buffer[..offset] == old(buffer[..offset]) + t
    {
      ok := Ensure(|t|);
      if ok {
        Append(t);
      }
    }

    /** Appends a text with a terminator behind it. */
    method AppendText(t: bytes) returns (ok: bool)
      requires Ready()
      modifies this`buffer, this`offset, buffer
      ensures Ready() && Capacity() == old(Capacity()) && (buffer == old(buffer) || (fresh(buffer) && !noalloc))
      ensures !ok ==> old(offset) + |t| + 2 > Capacity()
      ensures ok ==> buffer[..offset] == old(buffer[..offset]) + t
    {
      ok := Ensure(|t| + 1);
      if ok {
        Append(t);
        buffer[offset] := NUL;
      }
    }

    /** Closes an array or object; the offset stays in front of the closing text. */
    method PrintEnd(t: bytes) returns (ok: bool)
      requires Ready() && 1 <= depth
      modifies this, buffer
      ensures Ready() && Capacity() == old(Capacity()) && (buffer == old(buffer) || (fresh(buffer) && !noalloc))
      ensures ok <==> old(offset) + |t| + 2 <= Capacity()
      ensures ok ==> depth == old(depth) - 1 && Holds(old(buffer[..offset]), t)
    {
      ok := PrintName(t);
      if ok {
        depth := depth - 1;
      }
    }

    method PrintObject(members: Members) returns (ok: bool)
      requires Ready() && PrintableMembers(members)
      modifies this, buffer
      ensures Ready() && Capacity() == old(Capacity()) && (buffer == old(buffer) || (fresh(buffer) && !noalloc))
      ensures ok <==> old(offset) + |Text(Object(members), format, old(depth))| + 2 <= Capacity()
      ensures ok ==> depth == old(depth) && Holds(old(buffer[..offset]), Text(Object(members), format, depth))
      decreases members, 2
    {
      hide Text, MembersText, ObjectClose, ObjectOpen, Holds;
      ObjectText(members, format, depth);
      ghost var was := buffer[..offset];
      ok := AppendText(ObjectOpen(format));
      if !ok {
        return;
      }
      depth := depth + 1;
      ok := PrintMembers(members);
      if !ok {
        return;
      }
      ok := PrintEnd(ObjectClose(format, depth - 1));
      if ok {
        HoldsTogether(was, ObjectOpen(format), MembersText(members, format, depth + 1), ObjectClose(format, depth));
      }
    }

    /** The loop over the members of an object. */
    method PrintMembers(members: Members) returns (ok: bool)
      requires Ready() && PrintableMembers(members)
      modifies this, buffer
      ensures Ready() && Capacity() == old(Capacity()) && (buffer == old(buffer) || (fresh(buffer) && !noalloc))
      ensures !ok ==> old(offset) + |MembersText(members, format, old(depth))| + 2 > Capacity()
      ensures ok ==>
        depth == old(depth) && buffer[..offset] == old(buffer[..offset]) + MembersText(members, format, depth)
      decreases members, 1
    {
      hide Text, MembersText, KeyText, MemberClose, Holds;
      ghost var goal := buffer[..offset] + MembersText(members, format, depth);
      var current := members;
      ok := true;
      while current.Member?
        invariant Ready() && Capacity() == old(Capacity()) && (buffer == old(buffer) || (fresh(buffer) && !noalloc))
        invariant depth == old(depth) && PrintableMembers(current) && (current == members || current < members)
        invariant ok && buffer[..offset] + MembersText(current, format, depth) == goal
        decreases current
      {
        RegroupMembers(buffer[..offset], current, format, depth);
        ok := PrintMember(current);
        if !ok {
          return;
        }
        current := current.next;
      }
      NoMembersText(current, format, depth);
    }

    /** Prints one member with its indentation and what separates it from the next. */
    method PrintMember(member: Members) returns (ok: bool)
      requires Ready() && member.Member? && Printable(member.value)
      modifies this, buffer
      ensures Ready() && Capacity() == old(Capacity()) && (buffer == old(buffer) || (fresh(buffer) && !noalloc))
      ensures var t := KeyText(member.key, format, old(depth))
        + (Text(member.value, format, old(depth)) + MemberClose(member.next.NoMember?, format));
        && (!ok ==> old(offset) + |t| + 2 > Capacity())
        && (ok ==> depth == old(depth) && buffer[..offset] == old(buffer[..offset]) + t)
      decreases member, 0
    {
      hide Text, KeyText, MemberClose;
      ok := PrintKey(member.key);
      if !ok {
        return;
      }
      ok := AppendValue(member.value);
      if !ok {
        return;
      }
      ok := AppendText(MemberClose(member.next.NoMember?, format));
    }

    method PrintIndentation() returns (ok: bool)
      requires Ready()
      modifies this`buffer, this`offset, buffer
      ensures Ready() && Capacity() == old(Capacity()) && (buffer == old(buffer) || (fresh(buffer) && !noalloc))
      ensures !ok ==> old(offset) + |KeyOpen(format, depth)| + 2 > Capacity()
      ensures ok ==> buffer[..offset] == old(buffer[..offset]) + KeyOpen(format, depth)
    {
      ok := true;
      if format {
        ok := Ensure(depth);
        if ok {
          Append(Tabs(depth));
        }
      }
    }

    /** Prints a string literal and moves behind it. */
    method AppendString(s: bytes) returns (ok: bool)
      requires Ready()
      modifies this`buffer, this`offset, buffer
      ensures Ready() && Capacity() == old(Capacity()) && (buffer == old(buffer) || (fresh(buffer) && !noalloc))
      ensures !ok ==> old(offset) + |Quoted(s)| + 2 > Capacity()
      ensures ok ==> buffer[..offset] == old(buffer[..offset]) + Quoted(s) && offset < buffer.Length
    {
      hide Quoted, NulFree;
      ghost var done := buffer[..offset];
      ok := PrintString(s);
      if ok {
        QuotedIsNulFree(s);
        UpdateOffset(done, Quoted(s));
      }
    }

    method PrintKey(key: bytes) returns (ok: bool)
      requires Ready()
      modifies this`buffer, this`offset, buffer
      ensures Ready() && Capacity() == old(Capacity()) && (buffer == old(buffer) || (fresh(buffer) && !noalloc))
      ensures !ok ==> old(offset) + |KeyText(key, format, depth)| + 2 > Capacity()
      ensures ok ==> buffer[..offset] == old(buffer[..offset]) + KeyText(key, format, depth)
    {
      hide Quoted, KeyOpen, KeyClose, Tabs;
      ok := PrintIndentation();
      if !ok {
        return;
      }
      ok := AppendString(key);
      if !ok {
        return;
      }
      ok := AppendBytes(KeyClose(format));
    }
  }

  /** Prints into a growing buffer. The result is the text with its terminator, and there is one exactly when
      the text and two more bytes do not exceed the largest buffer. */
  method Print(v: Value, format: bool) returns (printed: Option<array<byte>>)
    requires Printable(v)
    ensures printed.Some? <==> |Text(v, format, 0)| + 2 <= INT_MAX
    ensures printed.Some? ==> fresh(printed.value) && printed.value[..] == Text(v, format, 0) + [NUL]
  {
    hide Text, Printable;
    var storage := new byte[256];
    var p := new PrintBuffer(storage, false, format);
    var ok := p.PrintValue(v);
    if !ok {
      return None;
    }
    TextIsNulFree(v, format, 0);
    p.UpdateOffset([], Text(v, format, 0));
    var result := new byte[p.offset + 1];
    for i := 0 to p.offset + 1
      invariant p.offset == |Text(v, format, 0)| && p.Holds([], Text(v, format, 0))
      invariant result[..i] == p.buffer[..i]
    {
      result[i] := p.buffer[i];
    }
    assert result[..] == p.buffer[..p.offset + 1] == p.buffer[..p.offset] + [NUL];
    return Some(result);
  }

  /** Prints into the caller's storage. It succeeds exactly when the storage has room for the text, its
      terminator and one byte more, so the five spare bytes that the header file asks for are enough. */
  method PrintPreallocated(v: Value, storage: array<byte>, format: bool) returns (ok: bool)
    requires Printable(v) && storage.Length <= INT_MAX
    modifies storage
    ensures ok <==> |Text(v, format, 0)| + 2 <= storage.Length
    ensures ok ==> storage[..|Text(v, format, 0)|] == Text(v, format, 0) && storage[|Text(v, format, 0)|] == NUL
  {
    hide Text;
    var p := new PrintBuffer(storage, true, format);
    ok := p.PrintValue(v);
  }

  /** Printing an element and its separator leaves the text of the rest to print. */
  lemma Regroup(done: bytes, items: Items, fmt: bool, d: nat)
    requires PrintableItems(items) && items.Item?
    ensures done + ItemsText(items, fmt, d) ==
      done + (Text(items.value, fmt, d) + (if items.next.NoItem? then [] else Separator(fmt)))
        + ItemsText(items.next, fmt, d)
  {
    hide Text, Separator;
  }

  lemma RegroupMembers(done: bytes, members: Members, fmt: bool, d: nat)
    requires PrintableMembers(members) && members.Member?
    ensures done + MembersText(members, fmt, d) ==
      done + (KeyText(members.key, fmt, d) + (Text(members.value, fmt, d) + MemberClose(members.next.NoMember?, fmt)))
      + MembersText(members.next, fmt, d)
  {
    hide Text, KeyText, MemberClose;
  }

  // ---------------------------------------------------------------- printed text holds no NUL

  lemma {:induction false} EscapeIsNulFree(s: bytes)
    requires NulFree(s)
    ensures NulFree(Escape(s))
  {
    if s != [] {
      EscapeIsNulFree(s[1..]);
    }
  }

  lemma QuotedIsNulFree(s: bytes)
    ensures NulFree(Quoted(s))
  {
    EscapeIsNulFree(CString(s));
  }

  lemma {:induction false} TextIsNulFree(v: Value, fmt: bool, d: nat)
    requires Printable(v)
    ensures NulFree(Text(v, fmt, d))
    decreases v, 1
  {
    hide Quoted, NumberText, ItemsText, MembersText, ObjectOpen, ObjectClose, NulFree;
    match v
    case Null => NamesAreNulFree();
    case False => NamesAreNulFree();
    case True => NamesAreNulFree();
    case Number(n) => NumberIsNulFree(n);
    case Str(s) => QuotedIsNulFree(s);
    case Array(items) =>
      ItemsTextIsNulFree(items, fmt, d + 1);
      NulFreeBetween([OPEN_BRACKET], ItemsText(items, fmt, d + 1), [CLOSE_BRACKET]);
    case Object(members) =>
      MembersTextIsNulFree(members, fmt, d + 1);
      BracesAreNulFree(fmt, d);
      NulFreeBetween(ObjectOpen(fmt), MembersText(members, fmt, d + 1), ObjectClose(fmt, d));
  }

  lemma NamesAreNulFree()
    ensures NulFree(NULL_TEXT) && NulFree(FALSE_TEXT) && NulFree(TRUE_TEXT)
  {
  }

  lemma NumberIsNulFree(n: int)
    ensures NulFree(NumberText(n))
  {
    hide DigitsOf;
  }

  lemma NulFreeBetween(s: bytes, t: bytes, u: bytes)
    ensures NulFree(t) ==> (NulFree(s + t + u) <==> NulFree(s) && NulFree(u))
    ensures NulFree([OPEN_BRACKET]) && NulFree([CLOSE_BRACKET])
  {
    assert forall k :: 0 <= k < |s| ==> (s + t + u)[k] == s[k];
    assert forall k :: 0 <= k < |u| ==> (s + t + u)[|s| + |t| + k] == u[k];
  }

  lemma {:induction false} BracesAreNulFree(fmt: bool, d: nat)
    ensures NulFree(ObjectOpen(fmt)) && NulFree(Tabs(d)) && NulFree(ObjectClose(fmt, d))
    decreases d
  {
    if d > 0 {
      BracesAreNulFree(fmt, d - 1);
    }
  }

  lemma {:induction false} ItemsTextIsNulFree(items: Items, fmt: bool, d: nat)
    requires PrintableItems(items)
    ensures NulFree(ItemsText(items, fmt, d))
    decreases items, 0
  {
    hide Text;
    if items.Item? {
      TextIsNulFree(items.value, fmt, d);
      ItemsTextIsNulFree(items.next, fmt, d);
    }
  }

  lemma {:induction false} MembersTextIsNulFree(members: Members, fmt: bool, d: nat)
    requires PrintableMembers(members)
    ensures NulFree(MembersText(members, fmt, d))
    decreases members, 0
  {
    hide Text, Quoted;
    if members.Member? {
      TextIsNulFree(members.value, fmt, d);
      MembersTextIsNulFree(members.next, fmt, d);
      QuotedIsNulFree(members.key);
    }
  }

  lemma NothingEscaped(c: bytes)
    ensures c[0..] == c && Escape(c[|c|..]) == []
  {
  }

  lemma EscapedLength(b: byte)
    ensures |EscapeByte(b)|
         == if b == QUOTE || b == BACKSLASH || b == 8 || b == 12 || b == NEWLINE || b == RETURN || b == TAB then 2
            else if b < 32 then 6 else 1
  {
  }

  lemma EscapeStep(c: bytes, i: nat)
    requires i < |c|
    ensures Escape(c[i..]) == EscapeByte(c[i]) + Escape(c[i + 1..])
  {
    assert c[i..][1..] == c[i + 1..];
  }

  lemma PlainQuoted(s: bytes, n: nat)
    requires n == |CString(s)| == |Escape(CString(s))|
    ensures n <= |s| && Quoted(s) == [QUOTE] + s[..n] + [QUOTE]
  {
    hide Escape, CString;
    PlainEscape(CString(s));
  }

  /** A string whose escaped form is no longer than itself needs no escapes. */
  lemma {:induction false} PlainEscape(s: bytes)
    requires |Escape(s)| == |s|
    ensures Escape(s) == s
  {
    if s != [] {
      PlainEscape(s[1..]);
    }
  }
}
