/** The parser as it runs: one buffer whose offset and depth move, and string decoding in two passes. */
module JsonParser {
  import opened Bytes
  import opened Unicode
  import opened JsonText
  import opened JsonGrammar

  // ---------------------------------------------------------------- how much room a literal needs

  /** The escapes that the first pass, standing at `p`, still meets at or behind `from`. */
  function Escapes(c: bytes, p: nat, from: nat, end: nat): nat
    requires end <= |c|
    decreases end - p
  {
    if p >= end then 0
    else if c[p] == BACKSLASH then (if from <= p then 1 else 0) + Escapes(c, p + 2, from, end)
    else Escapes(c, p + 1, from, end)
  }

  /** Between `from` and `to` the first pass meets an escape at most every other byte, and none on a byte
      that is no backslash. */
  lemma {:induction false} EscapesBetween(c: bytes, p: nat, from: nat, to: nat, end: nat)
    requires end <= |c| && from <= to
    ensures Escapes(c, p, to, end) <= Escapes(c, p, from, end)
    ensures 2 * (Escapes(c, p, from, end) - Escapes(c, p, to, end)) <= to - from + 1
    ensures p >= to ==> Escapes(c, p, from, end) == Escapes(c, p, to, end)
    ensures p > from && p <= to ==> 2 * (Escapes(c, p, from, end) - Escapes(c, p, to, end)) <= to - p + 1
    ensures to == from + 1 && from < |c| && c[from] != BACKSLASH ==> Escapes(c, p, from, end) == Escapes(c, p, to, end)
    decreases end - p
  {
    if p < end {
      EscapesBetween(c, if c[p] == BACKSLASH then p + 2 else p + 1, from, to, end);
    }
  }

  /** Behind the end there are no escapes. */
  lemma {:induction false} NoEscapesBehind(c: bytes, p: nat, from: nat, end: nat)
    requires end <= from && end <= |c|
    ensures Escapes(c, p, from, end) == 0
    decreases end - p
  {
    if p < end {
      NoEscapesBehind(c, if c[p] == BACKSLASH then p + 2 else p + 1, from, end);
    }
  }

  /** What is left of the literal and its closing quote is at least as long as the escapes left. */
  lemma EscapesFit(c: bytes, p: nat, from: nat, end: nat)
    requires from <= end + 1 && end <= |c|
    ensures Escapes(c, p, from, end) <= end + 1 - from
  {
    NoEscapesBehind(c, p, end + 1, end);
    EscapesBetween(c, p, from, end + 1, end);
  }

  // ---------------------------------------------------------------- the parse buffer

  class ParseBuffer {
    const content: bytes
    var offset: nat
    var depth: nat

    constructor (content: bytes)
      ensures this.content == content && offset == 0 && depth == 0
    {
      this.content := content;
      this.offset := 0;
      this.depth := 0;
    }

    ghost predicate Inside()
      reads this
    {
      Terminated(content) && offset < |content|
    }

    /** Skips white space; at the end of the buffer it steps back onto the terminator. */
    method SkipWhitespace()
      requires Inside()
      modifies this`offset
      ensures Inside() && offset == Skip(content, old(offset))
    {
      while offset < |content| && content[offset] <= 32
        invariant offset <= |content|
        invariant if offset < |content| then Skip(content, offset) == Skip(content, old(offset))
                  else Skip(content, old(offset)) == |content| - 1
        decreases |content| - offset
      {
        offset := offset + 1;
      }
      if offset == |content| {
        offset := offset - 1;
      }
    }

    // -------------------------------------------------------------- strings

    /** Reads four hexadecimal digits, or 0 when one of the bytes is no digit. */
    method ParseHex4(at: nat) returns (h: nat)
      requires at + 4 <= |content|
      ensures h == Hex4(content[at], content[at + 1], content[at + 2], content[at + 3]).Read()
    {
      h := 0;
      for i := 0 to 4
        invariant i >= 1 ==> HexDigit(content[at]).Some?
        invariant i >= 2 ==> HexDigit(content[at + 1]).Some?
        invariant i >= 3 ==> HexDigit(content[at + 2]).Some?
        invariant i >= 4 ==> HexDigit(content[at + 3]).Some?
        invariant i == 0 ==> h == 0
        invariant i == 1 ==> h == HexDigit(content[at]).value * 16
        invariant i == 2 ==> h == (HexDigit(content[at]).value * 16 + HexDigit(content[at + 1]).value) * 16
        invariant i == 3 ==> h == ((HexDigit(content[at]).value * 16 + HexDigit(content[at + 1]).value) * 16
                                   + HexDigit(content[at + 2]).value) * 16
        invariant i == 4 ==> h == Hex4(content[at], content[at + 1], content[at + 2], content[at + 3]).Value()
      {
        var digit := HexDigit(content[at + i]);
        if digit.None? {
          return 0;
        }
        h := h + digit.value;
        if i < 3 {
          h := h * 16;
        }
      }
    }

    /** Writes the UTF-8 form of a code point, last byte first. */
    static method WriteUtf8(codePoint: nat, output: array<byte>, at: nat) returns (length: nat)
      requires codePoint <= MAX_CODE_POINT && at + |Encode(codePoint)| <= output.Length
      modifies output
      ensures length == |Encode(codePoint)| && output[..at + length] == old(output[..at]) + Encode(codePoint)
    {
      var cp := codePoint;
      if cp < 0x80 {
        length := 1;
      } else if cp < 0x800 {
        length := 2;
      } else if cp < 0x10000 {
        length := 3;
      } else {
        length := 4;
      }
      var mark: nat := if length == 2 then 0xC0 else if length == 3 then 0xE0 else if length == 4 then 0xF0 else 0;
      var position := length - 1;
      while position > 0
        invariant 0 <= position < length
        invariant cp == (if length - position == 1 then codePoint else if length - position == 2 then codePoint / 64
                         else if length - position == 3 then codePoint / 64 / 64 else codePoint / 64 / 64 / 64)
        invariant forall k :: position < k < length ==> output[at + k] == Encode(codePoint)[k]
        invariant forall k :: 0 <= k < at ==> output[k] == old(output[k])
      {
        output[at + position] := Tail(cp);
        cp := cp / 64;
        position := position - 1;
      }
      output[at] := mark + cp;
    }

    method ParseCodeUnit(i: nat) returns (h: nat)
      requires i + 6 <= |content|
      ensures h == CodeUnit(content, i)
    {
      h := ParseHex4(i + 2);
    }

    /** Reads the escape or surrogate pair at `i`; the length is 0 when it is malformed. */
    method ReadCodePoint(i: nat, end: nat) returns (sequence: nat, codePoint: nat)
      requires i <= end <= |content|
      ensures sequence == 0 <==> CodePoint(content, i, end).None?
      ensures sequence != 0 ==> CodePoint(content, i, end) == Some((codePoint, sequence))
    {
      hide CodeUnit, FromPair;
      if end - i < 6 {
        return 0, 0;
      }
      var first := ParseCodeUnit(i);
      if 0xDC00 <= first <= 0xDFFF {
        return 0, 0;
      }
      if 0xD800 <= first <= 0xDBFF {
        if end - (i + 6) < 6 || content[i + 6] != BACKSLASH || content[i + 7] != LOWER_U {
          return 0, 0;
        }
        var second := ParseCodeUnit(i + 6);
        if second < 0xDC00 || second > 0xDFFF {
          return 0, 0;
        }
        PairBits(first, second);
        return 12, 0x10000 + (first % 0x400 * 0x400 + second % 0x400);
      }
      return 6, first;
    }

    /** Converts the escape at `i` to UTF-8; the result is the number of bytes read, or 0 when it is malformed. */
    method Utf16Literal(i: nat, end: nat, output: array<byte>, at: nat) returns (sequence: nat, written: nat)
      requires i <= end <= |content|
      requires CodePoint(content, i, end).Some? ==> at + |Encode(CodePoint(content, i, end).value.0)| <= output.Length
      modifies output
      ensures sequence == 0 <==> CodePoint(content, i, end).None?
      ensures sequence != 0 ==> var (cp, n) := CodePoint(content, i, end).value;
        sequence == n && written == |Encode(cp)| && at + written <= output.Length &&
        output[..at + written] == old(output[..at]) + Encode(cp)
    {
      hide Encode, CodePoint;
      var codePoint;
      sequence, codePoint := ReadCodePoint(i, end);
      written := 0;
      if sequence != 0 {
        written := WriteUtf8(codePoint, output, at);
      }
    }

    /** First pass: the closing quote and the number of escapes in front of it. */
    method FindClosingQuote() returns (found: bool, end: nat, skipped: nat)
      requires offset < |content|
      ensures found <==> ClosingQuote(content, offset + 1).Some?
      ensures found ==> Some(end) == ClosingQuote(content, offset + 1)
      ensures found ==> skipped == Escapes(content, offset + 1, offset + 1, end)
    {
      ghost var q := ClosingQuote(content, offset + 1);
      end, skipped := offset + 1, 0;
      while end < |content| && content[end] != QUOTE
        invariant offset + 1 <= end <= |content| && ClosingQuote(content, end) == q
        invariant q.Some? ==>
          skipped + Escapes(content, end, offset + 1, q.value) == Escapes(content, offset + 1, offset + 1, q.value)
        decreases |content| - end
      {
        if content[end] == BACKSLASH {
          if end + 1 >= |content| {
            return false, end, skipped;
          }
          skipped := skipped + 1;
          end := end + 1;
        }
        end := end + 1;
      }
      found := end < |content|;
    }

    /** One step of the second pass decodes one character. */
    method DecodeOne(i: nat, end: nat, output: array<byte>, at: nat) returns (ok: bool, next: nat, into: nat)
      requires i < end < |content| && at + Room(i, end) <= output.Length
      modifies output
      ensures ok <==> OneMeaning(content, i, end).Some?
      ensures ok ==> var (meaning, n) := OneMeaning(content, i, end).value;
        next == i + n && into == at + |meaning| <= output.Length && output[..into] == old(output[..at]) + meaning
    {
      ok, next, into := true, i, at;
      if content[i] != BACKSLASH {
        output[at] := content[i];
        next, into := i + 1, at + 1;
      } else if content[i + 1] == LOWER_U {
        var sequence, written := Utf16Literal(i, end, output, at);
        if sequence == 0 {
          return false, i, at;
        }
        next, into := i + sequence, at + written;
      } else {
        var b := Unescape(content[i + 1]);
        if b.None? {
          return false, i, at;
        }
        output[at] := b.value;
        next, into := i + 2, at + 1;
      }
    }

    /** Decodes a literal in two passes. The first computes how many bytes to allocate; the second never
        writes outside that allocation, whatever the literal contains. */
    method ParseString() returns (ok: bool, s: bytes)
      requires Inside()
      modifies this`offset
      ensures ok <==> JsonGrammar.ParseString(content, old(offset)).Some?
      ensures ok ==> Inside() && JsonGrammar.ParseString(content, old(offset)) == Some((s, offset))
    {
      hide Contents, ClosingQuote, OneMeaning;
      s := [];
      if content[offset] != QUOTE {
        return false, s;
      }
      var found, end, skipped := FindClosingQuote();
      if !found {
        return false, s;
      }
      var size := end - offset - skipped;
      EscapesFit(content, offset + 1, offset + 1, end);
      var output := new byte[size + 1];
      var into;
      ok, into := DecodeContents(end, output, size);
      if ok {
        s := output[..into];
        output[into] := NUL;
        offset := end + 1;
      }
    }

    /** The second pass. */
    method DecodeContents(end: nat, output: array<byte>, size: int) returns (ok: bool, into: nat)
      requires offset < end < |content| && output.Length == size + 1
      requires size == end - offset - Escapes(content, offset + 1, offset + 1, end)
      modifies output
      ensures ok <==> Contents(content, offset + 1, end).Some?
      ensures ok ==> into <= size && Contents(content, offset + 1, end) == Some(output[..into])
    {
      hide Contents, OneMeaning, CodePoint, Escapes;
      ghost var start := offset + 1;
      var i := offset + 1;
      into := 0;
      PrependNothing(Contents(content, start, end));
      assert output[..0] == [];
      EscapesFit(content, start, start, end);
      while i < end
        invariant start <= i <= end + 1
        invariant into + (end + 1 - i) <= size + Escapes(content, start, i, end) <= size + (end + 1 - i)
        invariant Contents(content, start, end) == Prepend(output[..into], Contents(content, i, end))
        decreases end + 1 - i
      {
        ghost var done := output[..into];
        if OneMeaning(content, i, end).Some? {
          MeaningFits(content, start, i, end);
          EscapesFit(content, start, i + OneMeaning(content, i, end).value.1, end);
          PrependPrepend(done, OneMeaning(content, i, end).value.0,
            Contents(content, i + OneMeaning(content, i, end).value.1, end));
        }
        ContentsStep(content, i, end);
        var next;
        ok, next, into := DecodeOne(i, end, output, into);
        if !ok {
          return;
        }
        i := next;
      }
      ok := true;
      EmptyContents(content, i, end);
      PrependEmpty(output[..into]);
    }

    /** The bytes one character of a literal decodes to need at most this much room. */
    ghost function Room(i: nat, end: nat): nat
      requires i < end < |content|
    {
      if OneMeaning(content, i, end).Some? then |OneMeaning(content, i, end).value.0| else 0
    }

    // -------------------------------------------------------------- values

    /** Copies at most 63 number bytes into a temporary buffer. */
    method CopyToken() returns (token: array<byte>, n: nat)
      requires Inside()
      ensures n <= token.Length && offset + n == RunEnd(content, offset, 63)
      ensures token[..n] == content[offset..offset + n]
    {
      hide NumberByte, RunEnd;
      token := new byte[64];
      n := 0;
      while n < 63 && offset + n < |content| && NumberByte(content[offset + n])
        invariant n <= 63 && offset + n <= |content|
        invariant RunEnd(content, offset + n, 63 - n) == RunEnd(content, offset, 63)
        invariant forall k :: 0 <= k < n ==> token[k] == content[offset + k]
      {
        RunEndStep(content, offset + n, 63 - n);
        token[n] := content[offset + n];
        n := n + 1;
      }
      RunEndStep(content, offset + n, 63 - n);
    }

    /** Lets the C library read the token. */
    method ParseNumber() returns (ok: bool, v: Value)
      requires Inside()
      modifies this`offset
      ensures ok <==> JsonGrammar.ParseNumber(content, old(offset)).Some?
      ensures ok ==> Inside() && JsonGrammar.ParseNumber(content, old(offset)) == Some((v, offset))
    {
      hide RunEnd, Strtod;
      var token, n := CopyToken();
      match Strtod(token[..n])
      case None => ok, v := false, Null;
      case Some((number, length)) =>
        ok, v := true, number;
        offset := offset + length;
    }

    /** Reads one value; on success the depth is what it was. */
    method ParseValue() returns (ok: bool, v: Value)
      requires Inside()
      modifies this
      ensures ok <==> JsonGrammar.ParseValue(content, old(offset), old(depth)).Some?
      ensures ok ==> Inside() && depth == old(depth)
      ensures ok ==> JsonGrammar.ParseValue(content, old(offset), old(depth)) == Some((v, offset))
      decreases |content| - offset, 1
    {
      hide JsonGrammar.ParseString, JsonGrammar.ParseNumber, Skip;
      v := Null;
      if At(content, offset, NULL_TEXT) {
        offset := Behind(content, offset, NULL_TEXT);
        return true, Null;
      }
      if At(content, offset, FALSE_TEXT) {
        offset := Behind(content, offset, FALSE_TEXT);
        return true, False;
      }
      if At(content, offset, TRUE_TEXT) {
        offset := Behind(content, offset, TRUE_TEXT);
        return true, True;
      }
      if content[offset] == QUOTE {
        var s;
        ok, s := ParseString();
        v := Str(s);
      } else if content[offset] == MINUS || Digit(content[offset]) {
        ok, v := ParseNumber();
      } else if content[offset] == OPEN_BRACKET {
        ok, v := ParseArray();
      } else if content[offset] == OPEN_BRACE {
        ok, v := ParseObject();
      } else {
        ok := false;
      }
    }

    method ParseArray() returns (ok: bool, v: Value)
      requires Inside() && content[offset] == OPEN_BRACKET
      modifies this
      ensures ok <==> JsonGrammar.ParseValue(content, old(offset), old(depth)).Some?
      ensures ok ==> Inside() && depth == old(depth)
      ensures ok ==> JsonGrammar.ParseValue(content, old(offset), old(depth)) == Some((v, offset))
      decreases |content| - offset, 0
    {
      hide JsonGrammar.ParseValue, ParseItems, Skip;
      ArrayUnfold(content, offset, depth);
      v := Null;
      if depth >= NESTING_LIMIT {
        return false, v;
      }
      depth := depth + 1;
      offset := offset + 1;
      SkipWhitespace();
      if content[offset] == CLOSE_BRACKET {
        depth := depth - 1;
        offset := offset + 1;
        return true, Array(NoItem);
      }
      var items;
      ok, items := ParseElements();
      if ok {
        depth := depth - 1;
        offset := offset + 1;
        v := Array(items);
      }
    }

    /** The loop over the comma-separated elements; it ends in front of the closing bracket. */
    method ParseElements() returns (ok: bool, items: Items)
      requires Inside() && 1 <= offset
      modifies this
      ensures ok <==> ParseItems(content, old(offset), old(depth)).Some?
      ensures ok ==> Inside() && depth == old(depth) && content[offset] == CLOSE_BRACKET
      ensures ok ==> ParseItems(content, old(offset), old(depth)) == Some((items, offset + 1))
      decreases |content| - offset, 2
    {
      hide JsonGrammar.ParseValue, ParseItems, Skip, WithItems, Linked;
      items := NoItem;
      ghost var all := ParseItems(content, offset, depth);
      var done: seq<Value> := [];
      offset := offset - 1;
      WithNoItems(all);
      var more := true;
      while more
        invariant Terminated(content) && depth == old(depth) && old(offset) <= offset + 1
        invariant more ==> offset + 1 < |content| && all == WithItems(done, ParseItems(content, offset + 1, depth))
        invariant !more ==> offset < |content| && old(offset) <= offset
        invariant !more ==>
          all == if content[offset] == CLOSE_BRACKET then Some((Linked(done, NoItem), offset + 1)) else None
        decreases more, |content| - offset
      {
        ItemsUnfold(content, offset + 1, depth, done);
        offset := offset + 1;
        SkipWhitespace();
        var v;
        ok, v := ParseValue();
        if !ok {
          return;
        }
        SkipWhitespace();
        done := done + [v];
        more := content[offset] == COMMA;
      }
      ok := content[offset] == CLOSE_BRACKET;
      items := Linked(done, NoItem);
    }

    method ParseObject() returns (ok: bool, v: Value)
      requires Inside() && content[offset] == OPEN_BRACE
      modifies this
      ensures ok <==> JsonGrammar.ParseValue(content, old(offset), old(depth)).Some?
      ensures ok ==> Inside() && depth == old(depth)
      ensures ok ==> JsonGrammar.ParseValue(content, old(offset), old(depth)) == Some((v, offset))
      decreases |content| - offset, 0
    {
      hide JsonGrammar.ParseValue, ParseMembers, Skip;
      ObjectUnfold(content, offset, depth);
      v := Null;
      if depth >= NESTING_LIMIT {
        return false, v;
      }
      depth := depth + 1;
      offset := offset + 1;
      SkipWhitespace();
      if content[offset] == CLOSE_BRACE {
        depth := depth - 1;
        offset := offset + 1;
        return true, Object(NoMember);
      }
      var members;
      ok, members := ParseFields();
      if ok {
        depth := depth - 1;
        offset := offset + 1;
        v := Object(members);
      }
    }

    /** One member: its key, the colon and its value, with the white space around them. */
    method ParseMember() returns (ok: bool, key: bytes, v: Value)
      requires Inside()
      modifies this
      ensures ok <==> MemberAt(content, old(offset), old(depth)).Some?
      ensures ok ==> Inside() && depth == old(depth) && old(offset) < offset
      ensures ok ==> MemberAt(content, old(offset), old(depth)) == Some((key, v, offset))
      decreases |content| - offset, 2
    {
      hide JsonGrammar.ParseValue, JsonGrammar.ParseString, Skip;
      v := Null;
      SkipWhitespace();
      ok, key := ParseString();
      if !ok {
        return;
      }
      SkipWhitespace();
      if content[offset] != COLON {
        return false, key, v;
      }
      offset := offset + 1;
      SkipWhitespace();
      ok, v := ParseValue();
      if ok {
        SkipWhitespace();
      }
    }

    /** The loop over the comma-separated members; it ends in front of the closing brace. */
    method ParseFields() returns (ok: bool, members: Members)
      requires Inside() && 1 <= offset
      modifies this
      ensures ok <==> ParseMembers(content, old(offset), old(depth)).Some?
      ensures ok ==> Inside() && depth == old(depth) && content[offset] == CLOSE_BRACE
      ensures ok ==> ParseMembers(content, old(offset), old(depth)) == Some((members, offset + 1))
      decreases |content| - offset, 3
    {
      hide MemberAt, ParseMembers, WithMembers, LinkedMembers;
      members := NoMember;
      ghost var all := ParseMembers(content, offset, depth);
      var done: seq<(bytes, Value)> := [];
      offset := offset - 1;
      WithNoMembers(all);
      var more := true;
      while more
        invariant Terminated(content) && depth == old(depth) && old(offset) <= offset + 1
        invariant more ==> offset + 1 < |content| && all == WithMembers(done, ParseMembers(content, offset + 1, depth))
        invariant !more ==> offset < |content| && old(offset) <= offset
        invariant !more ==>
          all == if content[offset] == CLOSE_BRACE then Some((LinkedMembers(done, NoMember), offset + 1)) else None
        decreases more, |content| - offset
      {
        MembersUnfold(content, offset + 1, depth, done);
        offset := offset + 1;
        var key, v;
        ok, key, v := ParseMember();
        if !ok {
          return;
        }
        done := done + [(key, v)];
        more := content[offset] == COMMA;
      }
      ok := content[offset] == CLOSE_BRACE;
      members := LinkedMembers(done, NoMember);
    }
  }

  lemma RunEndStep(c: bytes, off: nat, k: nat)
    requires off <= |c|
    ensures 0 < k && off < |c| && NumberByte(c[off]) ==> RunEnd(c, off, k) == RunEnd(c, off + 1, k - 1)
    ensures !(0 < k && off < |c| && NumberByte(c[off])) ==> RunEnd(c, off, k) == off
  {
  }

  // ---------------------------------------------------------------- lists under construction

  /** The elements read so far, linked in front of the rest. */
  function Linked(done: seq<Value>, rest: Items): Items {
    if done == [] then rest else Item(done[0], Linked(done[1..], rest))
  }

  function LinkedMembers(done: seq<(bytes, Value)>, rest: Members): Members {
    if done == [] then rest else Member(done[0].0, done[0].1, LinkedMembers(done[1..], rest))
  }

  function WithItems(done: seq<Value>, r: Option<(Items, nat)>): Option<(Items, nat)> {
    match r
    case None => None
    case Some((items, end)) => Some((Linked(done, items), end))
  }

  function WithMembers(done: seq<(bytes, Value)>, r: Option<(Members, nat)>): Option<(Members, nat)> {
    match r
    case None => None
    case Some((members, end)) => Some((LinkedMembers(done, members), end))
  }

  lemma WithNoItems(r: Option<(Items, nat)>)
    ensures WithItems([], r) == r
  {
  }

  lemma WithNoMembers(r: Option<(Members, nat)>)
    ensures WithMembers([], r) == r
  {
  }

  lemma {:induction false} LinkOne(done: seq<Value>, v: Value, rest: Items)
    ensures Linked(done + [v], rest) == Linked(done, Item(v, rest))
  {
    if done == [] {
      assert (done + [v])[1..] == [];
    } else {
      assert (done + [v])[1..] == done[1..] + [v];
      LinkOne(done[1..], v, rest);
    }
  }

  lemma {:induction false} LinkOneMember(done: seq<(bytes, Value)>, key: bytes, v: Value, rest: Members)
    ensures LinkedMembers(done + [(key, v)], rest) == LinkedMembers(done, Member(key, v, rest))
  {
    if done == [] {
      assert (done + [(key, v)])[1..] == [];
    } else {
      assert (done + [(key, v)])[1..] == done[1..] + [(key, v)];
      LinkOneMember(done[1..], key, v, rest);
    }
  }

  // ---------------------------------------------------------------- one step of the grammar

  lemma ArrayUnfold(c: bytes, off: nat, depth: nat)
    requires Terminated(c) && off < |c| && c[off] == OPEN_BRACKET
    ensures off + 1 < |c|
    ensures JsonGrammar.ParseValue(c, off, depth) ==
      if depth >= NESTING_LIMIT then None
      else if c[Skip(c, off + 1)] == CLOSE_BRACKET then Some((Array(NoItem), Skip(c, off + 1) + 1))
      else AsArray(ParseItems(c, Skip(c, off + 1), depth + 1))
  {
  }

  lemma ObjectUnfold(c: bytes, off: nat, depth: nat)
    requires Terminated(c) && off < |c| && c[off] == OPEN_BRACE
    ensures off + 1 < |c|
    ensures JsonGrammar.ParseValue(c, off, depth) ==
      if depth >= NESTING_LIMIT then None
      else if c[Skip(c, off + 1)] == CLOSE_BRACE then Some((Object(NoMember), Skip(c, off + 1) + 1))
      else AsObject(ParseMembers(c, Skip(c, off + 1), depth + 1))
  {
  }

  /** What reading one more element makes of the elements read so far. */
  lemma ItemsUnfold(c: bytes, off: nat, depth: nat, done: seq<Value>)
    requires Terminated(c) && off < |c|
    ensures var r := JsonGrammar.ParseValue(c, Skip(c, off), depth);
      && (r.None? ==> WithItems(done, ParseItems(c, off, depth)) == None)
      && (r.Some? ==> var (v, e) := r.value; var i := Skip(c, e);
            WithItems(done, ParseItems(c, off, depth)) ==
              if c[i] == COMMA then WithItems(done + [v], ParseItems(c, i + 1, depth))
              else if c[i] == CLOSE_BRACKET then Some((Linked(done + [v], NoItem), i + 1))
              else None)
  {
    hide JsonGrammar.ParseValue, Skip, Linked;
    var r := JsonGrammar.ParseValue(c, Skip(c, off), depth);
    if r.Some? {
      var (v, e) := r.value;
      var i := Skip(c, e);
      LinkOne(done, v, NoItem);
      if c[i] == COMMA && ParseItems(c, i + 1, depth).Some? {
        LinkOne(done, v, ParseItems(c, i + 1, depth).value.0);
      }
    }
  }

  lemma MembersUnfold(c: bytes, off: nat, depth: nat, done: seq<(bytes, Value)>)
    requires Terminated(c) && off < |c|
    ensures var r := MemberAt(c, off, depth);
      && (r.None? ==> WithMembers(done, ParseMembers(c, off, depth)) == None)
      && (r.Some? ==> var (key, v, i) := r.value;
            WithMembers(done, ParseMembers(c, off, depth)) ==
              if c[i] == COMMA then WithMembers(done + [(key, v)], ParseMembers(c, i + 1, depth))
              else if c[i] == CLOSE_BRACE then Some((LinkedMembers(done + [(key, v)], NoMember), i + 1))
              else None)
  {
    hide JsonGrammar.ParseString, JsonGrammar.ParseValue, Skip, LinkedMembers, MemberAt;
    var r := MemberAt(c, off, depth);
    if r.Some? {
      var (key, v, i) := r.value;
      LinkOneMember(done, key, v, NoMember);
      if c[i] == COMMA && ParseMembers(c, i + 1, depth).Some? {
        LinkOneMember(done, key, v, ParseMembers(c, i + 1, depth).value.0);
      }
    }
  }

  /** The low ten bits of both surrogates make up the code point. */
  lemma PairBits(high: nat, low: nat)
    requires HighSurrogate(high) && LowSurrogate(low)
    ensures 0x10000 + (high % 0x400 * 0x400 + low % 0x400) == FromPair(high, low)
  {
    assert high % 0x400 == high - 0xD800 && low % 0x400 == low - 0xDC00;
  }

  /** What one character of a literal decodes to, and how many bytes it takes. */
  function OneMeaning(c: bytes, i: nat, end: nat): (r: Option<(bytes, nat)>)
    requires i < end < |c|
    ensures r.Some? ==> 1 <= |r.value.0| && 1 <= r.value.1 && i + r.value.1 <= end + 1
  {
    if c[i] != BACKSLASH then Some(([c[i]], 1))
    else if c[i + 1] == LOWER_U then
      match CodePoint(c, i, end)
      case None => None
      case Some((cp, n)) => Some((Encode(cp), n))
    else
      match Unescape(c[i + 1])
      case None => None
      case Some(b) => Some(([b], 2))
  }

  lemma EmptyContents(c: bytes, i: nat, end: nat)
    requires end <= i && end < |c|
    ensures Contents(c, i, end) == Some([])
  {
  }

  lemma ContentsStep(c: bytes, i: nat, end: nat)
    requires i < end < |c|
    ensures Contents(c, i, end) == match OneMeaning(c, i, end) {
        case None => None
        case Some((meaning, n)) => Prepend(meaning, Contents(c, i + n, end))
      }
  {
  }

  /** No character decodes to more bytes than it takes in the literal less the escapes the first pass counts there. */
  lemma MeaningFits(c: bytes, start: nat, i: nat, end: nat)
    requires i < end < |c| && OneMeaning(c, i, end).Some?
    ensures var (meaning, n) := OneMeaning(c, i, end).value;
      |meaning| <= n - (Escapes(c, start, i, end) - Escapes(c, start, i + n, end))
  {
    hide Unescape, Encode;
    EscapesBetween(c, start, i, i + OneMeaning(c, i, end).value.1, end);
  }

  /** Parses a whole C string, with its terminator, from the start. */
  method ParseText(content: bytes, requireEnd: bool) returns (ok: bool, v: Value, end: nat)
    requires Terminated(content)
    ensures ok <==> Parse(content, requireEnd).Some?
    ensures ok ==> Parse(content, requireEnd) == Some((v, end))
  {
    hide JsonGrammar.ParseValue, Skip;
    var buffer := new ParseBuffer(content);
    if 4 < |content| && At(content, 0, BYTE_ORDER_MARK) {
      buffer.offset := 3;
    }
    buffer.SkipWhitespace();
    ok, v := buffer.ParseValue();
    if ok && requireEnd {
      buffer.SkipWhitespace();
      ok := content[buffer.offset] == NUL;
    }
    end := buffer.offset;
  }
}
