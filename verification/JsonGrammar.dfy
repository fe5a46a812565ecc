/** What the parser reads: pure functions from a NUL-terminated buffer and an offset to a value and the offset behind
    it. */
module JsonGrammar {
  import opened Bytes
  import opened Unicode
  import opened JsonText

  const NESTING_LIMIT: nat := 1000

  /** The next byte above 32, or the terminator. */
  function Skip(c: bytes, off: nat): (r: nat)
    requires off < |c|
    ensures off <= r < |c|
    decreases |c| - off
  {
    if off < |c| - 1 && c[off] <= 32 then Skip(c, off + 1) else off
  }

  // ---------------------------------------------------------------- numbers

  predicate NumberByte(b: byte) {
    Digit(b) || b == PLUS || b == MINUS || b == 101 || b == 69 || b == DOT
  }

  /** The end of the run of number bytes from `off`, at most `k` bytes long. */
  function RunEnd(c: bytes, off: nat, k: nat): (r: nat)
    requires off <= |c|
    ensures off <= r <= |c| && r <= off + k
    ensures off < |c| && c[|c| - 1] == NUL ==> r < |c|
    decreases k
  {
    if k == 0 || off == |c| || !NumberByte(c[off]) then off else RunEnd(c, off + 1, k - 1)
  }

  function DigitsEnd(t: bytes, i: nat): (r: nat)
    requires i <= |t|
    ensures i <= r <= |t| && (forall k :: i <= k < r ==> Digit(t[k])) && (r < |t| ==> !Digit(t[r]))
    decreases |t| - i
  {
    if i < |t| && Digit(t[i]) then DigitsEnd(t, i + 1) else i
  }

  function DigitValue(b: byte): nat
    requires Digit(b)
  {
    b - 48
  }

  function ValueOfDigits(t: bytes): nat
    requires forall k :: 0 <= k < |t| ==> Digit(t[k])
  {
    if t == [] then 0 else ValueOfDigits(t[..|t| - 1]) * 10 + DigitValue(t[|t| - 1])
  }

  /** The end of the exponent that starts at `i`, or `i` when there is none. */
  function ExponentEnd(t: bytes, i: nat): (r: nat)
    requires i <= |t|
    ensures i <= r <= |t|
  {
    if i < |t| && (t[i] == 101 || t[i] == 69) then
      var j := if i + 1 < |t| && (t[i + 1] == PLUS || t[i + 1] == MINUS) then i + 2 else i + 1;
      if DigitsEnd(t, j) > j then DigitsEnd(t, j) else i
    else i
  }

  /** The longest prefix the C library reads as a decimal number. Its value is that of the digits for integers of at
      most fifteen digits, which a double holds exactly; any other number, and minus zero, is kept as it is spelled. */
  function Strtod(t: bytes): (r: Option<(Value, nat)>)
    ensures r.Some? ==> 0 < r.value.1 <= |t|
  {
    var s := if t != [] && (t[0] == MINUS || t[0] == PLUS) then 1 else 0;
    var d := DigitsEnd(t, s);
    var f := if d < |t| && t[d] == DOT then DigitsEnd(t, d + 1) else d;
    if d == s && f <= d + 1 then None
    else
      var e := ExponentEnd(t, f);
      if e == d then
        var m: int := ValueOfDigits(t[s..d]);
        var negative := s == 1 && t[0] == MINUS;
        if m < INTEGER_BOUND && !(negative && m == 0) then Some((Number(if negative then -m else m), d))
        else Some((Decimal(t[..d]), d))
      else Some((Decimal(t[..e]), e))
  }

  /** A number token is at most 63 bytes long. */
  function ParseNumber(c: bytes, off: nat): (r: Option<(Value, nat)>)
    requires Terminated(c) && off < |c|
    ensures r.Some? ==> off < r.value.1 < |c|
  {
    var t := c[off..RunEnd(c, off, 63)];
    match Strtod(t)
    case None => None
    case Some((v, n)) => Some((v, off + n))
  }

  // ---------------------------------------------------------------- strings

  /** The closing quote of a literal whose contents start at `i`. */
  function ClosingQuote(c: bytes, i: nat): (r: Option<nat>)
    requires i <= |c|
    ensures r.Some? ==> i <= r.value < |c| && c[r.value] == QUOTE
    decreases |c| - i
  {
    if i == |c| then None
    else if c[i] == QUOTE then Some(i)
    else if c[i] == BACKSLASH then
      if i + 1 == |c| then None else ClosingQuote(c, i + 2)
    else ClosingQuote(c, i + 1)
  }

  /** The byte of a two-character escape. */
  function Unescape(b: byte): Option<byte> {
    if b == 98 then Some(8)
    else if b == 102 then Some(12)
    else if b == 110 then Some(NEWLINE)
    else if b == 114 then Some(RETURN)
    else if b == 116 then Some(TAB)
    else if b == QUOTE || b == BACKSLASH || b == SLASH then Some(b)
    else None
  }

  /** The four hexadecimal digits of the escape at `i`; anything else reads as zero. */
  function CodeUnit(c: bytes, i: nat): (r: nat)
    requires i + 6 <= |c|
    ensures r <= 0xFFFF
  {
    Hex4(c[i + 2], c[i + 3], c[i + 4], c[i + 5]).Read()
  }

  /** The code point of the escape or surrogate pair at `i` and the number of bytes it takes. */
  function CodePoint(c: bytes, i: nat, end: nat): (r: Option<(nat, nat)>)
    requires i <= end <= |c|
    ensures r.Some? ==> Scalar(r.value.0) && i + r.value.1 <= end
    ensures r.Some? ==> r.value.1 == if r.value.0 < 0x10000 then 6 else 12
  {
    if end - i < 6 then None
    else
      var first := CodeUnit(c, i);
      if LowSurrogate(first) then None
      else if HighSurrogate(first) then
        if end - i < 12 || c[i + 6] != BACKSLASH || c[i + 7] != LOWER_U then None
        else
          var second := CodeUnit(c, i + 6);
          if LowSurrogate(second) then Some((FromPair(first, second), 12)) else None
      else Some((first, 6))
  }

  /** The contents of a literal between `i` and the closing quote at `end`. */
  function Contents(c: bytes, i: nat, end: nat): Option<bytes>
    requires end < |c|
    decreases end - i
  {
    if i >= end then Some([])
    else if c[i] != BACKSLASH then Prepend([c[i]], Contents(c, i + 1, end))
    else if c[i + 1] == LOWER_U then
      match CodePoint(c, i, end)
      case None => None
      case Some((cp, n)) => Prepend(Encode(cp), Contents(c, i + n, end))
    else
      match Unescape(c[i + 1])
      case None => None
      case Some(b) => Prepend([b], Contents(c, i + 2, end))
  }

  function Prepend(s: bytes, r: Option<bytes>): Option<bytes> {
    match r
    case None => None
    case Some(t) => Some(s + t)
  }

  lemma PrependPrepend(s: bytes, t: bytes, r: Option<bytes>)
    ensures Prepend(s, Prepend(t, r)) == Prepend(s + t, r)
  {
    if r.Some? {
      assert s + (t + r.value) == (s + t) + r.value;
    }
  }

  lemma PrependEmpty(s: bytes)
    ensures Prepend(s, Some([])) == Some(s)
  {
    assert s + [] == s;
  }

  lemma PrependNothing(r: Option<bytes>)
    ensures Prepend([], r) == r
  {
    if r.Some? {
      assert [] + r.value == r.value;
    }
  }

  function ParseString(c: bytes, off: nat): (r: Option<(bytes, nat)>)
    requires Terminated(c) && off < |c|
    ensures r.Some? ==> off < r.value.1 < |c|
  {
    if c[off] != QUOTE then None
    else
      match ClosingQuote(c, off + 1)
      case None => None
      case Some(end) =>
        match Contents(c, off + 1, end)
        case None => None
        case Some(s) => Some((s, end + 1))
  }

  // ---------------------------------------------------------------- values

  function ParseValue(c: bytes, off: nat, depth: nat): (r: Option<(Value, nat)>)
    requires Terminated(c) && off < |c|
    ensures r.Some? ==> off < r.value.1 < |c|
    decreases |c| - off, 1
  {
    if At(c, off, NULL_TEXT) then Some((Null, Behind(c, off, NULL_TEXT)))
    else if At(c, off, FALSE_TEXT) then Some((False, Behind(c, off, FALSE_TEXT)))
    else if At(c, off, TRUE_TEXT) then Some((True, Behind(c, off, TRUE_TEXT)))
    else if c[off] == QUOTE then
      match ParseString(c, off)
      case None => None
      case Some((s, e)) => Some((Str(s), e))
    else if c[off] == MINUS || Digit(c[off]) then ParseNumber(c, off)
    else if c[off] == OPEN_BRACKET then
      if depth >= NESTING_LIMIT then None
      else
        var i := Skip(c, off + 1);
        if c[i] == CLOSE_BRACKET then Some((Array(NoItem), i + 1))
        else
          AsArray(ParseItems(c, i, depth + 1))
    else if c[off] == OPEN_BRACE then
      if depth >= NESTING_LIMIT then None
      else
        var i := Skip(c, off + 1);
        if c[i] == CLOSE_BRACE then Some((Object(NoMember), i + 1))
        else
          AsObject(ParseMembers(c, i, depth + 1))
    else None
  }

  /** The offset behind a literal name; it is not the end of the buffer because the terminator follows. */
  function Behind(c: bytes, off: nat, t: bytes): (r: nat)
    requires Terminated(c) && At(c, off, t) && t != [] && t[|t| - 1] != NUL
    ensures off < r < |c|
  {
    AtIndex(c, off, t, |t| - 1);
    off + |t|
  }

  /** The elements up to and including the closing bracket. */
  function ParseItems(c: bytes, off: nat, depth: nat): (r: Option<(Items, nat)>)
    requires Terminated(c) && off < |c|
    ensures r.Some? ==> off < r.value.1 < |c|
    decreases |c| - off, 2
  {
    match ParseValue(c, Skip(c, off), depth)
    case None => None
    case Some((v, e)) =>
      var i := Skip(c, e);
      if c[i] == COMMA then
        WithItem(v, ParseItems(c, i + 1, depth))
      else if c[i] == CLOSE_BRACKET then Some((Item(v, NoItem), i + 1))
      else None
  }

  function AsArray(r: Option<(Items, nat)>): Option<(Value, nat)> {
    match r
    case None => None
    case Some((items, end)) => Some((Array(items), end))
  }

  function AsObject(r: Option<(Members, nat)>): Option<(Value, nat)> {
    match r
    case None => None
    case Some((members, end)) => Some((Object(members), end))
  }

  function WithItem(v: Value, r: Option<(Items, nat)>): Option<(Items, nat)> {
    match r
    case None => None
    case Some((items, end)) => Some((Item(v, items), end))
  }

  function WithMember(key: bytes, v: Value, r: Option<(Members, nat)>): Option<(Members, nat)> {
    match r
    case None => None
    case Some((members, end)) => Some((Member(key, v, members), end))
  }

  /** A member and the offset of what follows it. */
  function MemberAt(c: bytes, off: nat, depth: nat): (r: Option<(bytes, Value, nat)>)
    requires Terminated(c) && off < |c|
    ensures r.Some? ==> off < r.value.2 < |c|
    decreases |c| - off, 2
  {
    match ParseString(c, Skip(c, off))
    case None => None
    case Some((key, k)) =>
      if c[Skip(c, k)] != COLON then None
      else
        match ParseValue(c, Skip(c, Skip(c, k) + 1), depth)
        case None => None
        case Some((v, e)) => Some((key, v, Skip(c, e)))
  }

  /** The members up to and including the closing brace. */
  function ParseMembers(c: bytes, off: nat, depth: nat): (r: Option<(Members, nat)>)
    requires Terminated(c) && off < |c|
    ensures r.Some? ==> off < r.value.1 < |c|
    decreases |c| - off, 3
  {
    match MemberAt(c, off, depth)
    case None => None
    case Some((key, v, i)) =>
      if c[i] == COMMA then WithMember(key, v, ParseMembers(c, i + 1, depth))
      else if c[i] == CLOSE_BRACE then Some((Member(key, v, NoMember), i + 1))
      else None
  }

  const BYTE_ORDER_MARK: bytes := [0xEF, 0xBB, 0xBF]

  /** Where parsing starts: behind an optional byte order mark and leading white space. */
  function Start(c: bytes): (r: nat)
    requires Terminated(c)
    ensures r < |c|
  {
    Skip(c, if 4 < |c| && At(c, 0, BYTE_ORDER_MARK) then 3 else 0)
  }

  /** A whole text: its value and the offset where parsing stopped. */
  function Parse(c: bytes, requireEnd: bool): Option<(Value, nat)>
    requires Terminated(c)
  {
    match ParseValue(c, Start(c), 0)
    case None => None
    case Some((v, e)) =>
      if !requireEnd then Some((v, e))
      else if c[Skip(c, e)] == NUL then Some((v, Skip(c, e)))
      else None
  }
}
