/** UTF-8 (RFC 3629) and the UTF-16 escapes of JSON strings (RFC 8259 section 7, RFC 2781). */
module Unicode {
  import opened Bytes

  const MAX_CODE_POINT: nat := 0x10FFFF

  predicate HighSurrogate(u: nat) { 0xD800 <= u <= 0xDBFF }
  predicate LowSurrogate(u: nat) { 0xDC00 <= u <= 0xDFFF }

  /** A Unicode scalar value: a code point that is not a surrogate. */
  predicate Scalar(cp: nat) {
    cp <= MAX_CODE_POINT && !HighSurrogate(cp) && !LowSurrogate(cp)
  }

  predicate Continuation(b: byte) { 0x80 <= b <= 0xBF }

  /** A continuation byte carrying the low six bits of a code point. */
  function Tail(cp: nat): byte { 0x80 + cp % 64 }

  /** A code point without its low six bits. */
  function Rest(cp: nat): nat { cp / 64 }

  /** The byte sequence of a code point, by the table of RFC 3629 section 3. */
  function Encode(cp: nat): (r: bytes)
    requires cp <= MAX_CODE_POINT
    ensures |r| == if cp < 0x80 then 1 else if cp < 0x800 then 2 else if cp < 0x10000 then 3 else 4
  {
    if cp < 0x80 then [cp]
    else if cp < 0x800 then [0xC0 + Rest(cp), Tail(cp)]
    else if cp < 0x10000 then [0xE0 + Rest(Rest(cp)), Tail(Rest(cp)), Tail(cp)]
    else [0xF0 + Rest(Rest(Rest(cp))), Tail(Rest(Rest(cp))), Tail(Rest(cp)), Tail(cp)]
  }

  /** Appends the six payload bits of a continuation byte. */
  function Push(q: nat, b: byte): nat
    requires Continuation(b)
  {
    q * 64 + (b - 0x80)
  }

  /** Decodes one complete UTF-8 sequence; rejects overlong forms, surrogates and values out of range. */
  function Decode(s: bytes): Option<nat> {
    if |s| == 1 && s[0] < 0x80 then
      Some(s[0])
    else if |s| == 2 && 0xC2 <= s[0] <= 0xDF && Continuation(s[1]) then
      Some(Push(s[0] - 0xC0, s[1]))
    else if |s| == 3 && 0xE0 <= s[0] <= 0xEF && Continuation(s[1]) && Continuation(s[2]) then
      var cp := Push(Push(s[0] - 0xE0, s[1]), s[2]);
      if 0x800 <= cp && Scalar(cp) then Some(cp) else None
    else if |s| == 4 && 0xF0 <= s[0] <= 0xF4 && Continuation(s[1]) && Continuation(s[2]) && Continuation(s[3]) then
      var cp := Push(Push(Push(s[0] - 0xF0, s[1]), s[2]), s[3]);
      if 0x10000 <= cp && Scalar(cp) then Some(cp) else None
    else
      None
  }

  /** Decoding inverts encoding on every scalar value. */
  lemma DecodeEncode(cp: nat)
    requires Scalar(cp)
    ensures Decode(Encode(cp)) == Some(cp)
  {
    hide Rest, Tail, Push, Continuation;
    var a, b := Rest(cp), Rest(Rest(cp));
    PushPop(cp);
    PushPop(a);
    PushPop(b);
    RestBelow(cp);
    RestBelow(a);
    RestBelow(b);
  }

  lemma EncodeTwo(q: nat, a: byte)
    requires Continuation(a) && 2 <= q < 0x20
    ensures 0x80 <= Push(q, a) < 0x800 && Encode(Push(q, a)) == [0xC0 + q, a]
  {
    hide Rest, Tail;
    PopPush(q, a);
  }

  lemma EncodeThree(q: nat, a: byte, b: byte)
    requires Continuation(a) && Continuation(b) && q < 0x10 && 0x800 <= Push(Push(q, a), b)
    ensures Push(Push(q, a), b) < 0x10000 && Encode(Push(Push(q, a), b)) == [0xE0 + q, a, b]
  {
    hide Rest, Tail, Push, Continuation;
    var x := Push(q, a);
    PopPush(q, a);
    PopPush(x, b);
    PushBelow(q, a, 0x10);
    PushBelow(x, b, 0x400);
    assert Rest(Rest(Push(x, b))) == q;
  }

  lemma EncodeFour(q: nat, a: byte, b: byte, c: byte)
    requires Continuation(a) && Continuation(b) && Continuation(c) && q < 0x10
    requires 0x10000 <= Push(Push(Push(q, a), b), c) <= MAX_CODE_POINT
    ensures Encode(Push(Push(Push(q, a), b), c)) == [0xF0 + q, a, b, c]
  {
    hide Rest, Tail, Push, Continuation;
    var x, y := Push(q, a), Push(Push(q, a), b);
    PopPush(q, a);
    PopPush(x, b);
    PopPush(y, c);
    assert Rest(Rest(Rest(Push(y, c)))) == q;
  }

  lemma PushBelow(q: nat, b: byte, n: nat)
    requires Continuation(b) && q < n
    ensures Push(q, b) < 64 * n
  {
  }

  /** Every sequence the decoder accepts is the encoding of the scalar value it yields. */
  lemma EncodeDecode(s: bytes)
    requires Decode(s).Some?
    ensures Scalar(Decode(s).value) && Encode(Decode(s).value) == s
  {
    hide Push, Encode;
    if |s| == 1 {
      EncodeOne(s[0]);
    } else if |s| == 2 {
      EncodeTwo(s[0] - 0xC0, s[1]);
    } else if |s| == 3 {
      EncodeThree(s[0] - 0xE0, s[1], s[2]);
    } else {
      EncodeFour(s[0] - 0xF0, s[1], s[2], s[3]);
    }
  }

  lemma EncodeOne(b: byte)
    ensures b < 0x80 ==> Encode(b) == [b]
  {
  }

  lemma PopPush(q: nat, b: byte)
    requires Continuation(b)
    ensures Rest(Push(q, b)) == q && Tail(Push(q, b)) == b
  {
  }

  lemma PushPop(cp: nat)
    ensures Continuation(Tail(cp)) && Push(Rest(cp), Tail(cp)) == cp
  {
  }

  /** The bounds that the table of byte sequences rests on. */
  lemma RestBelow(cp: nat)
    ensures (cp < 0x800 ==> Rest(cp) < 0x20) && (cp < 0x10000 ==> Rest(cp) < 0x400)
    ensures (0x80 <= cp ==> 2 <= Rest(cp)) && (cp < 0x400 ==> Rest(cp) < 0x10)
    ensures (cp <= MAX_CODE_POINT ==> Rest(cp) < 0x4400) && (cp < 0x4400 ==> Rest(cp) < 0x110)
    ensures cp < 0x110 ==> Rest(cp) < 5
  {
  }

  /** The code point of a surrogate pair (RFC 2781 section 2.2). */
  function FromPair(high: nat, low: nat): (cp: nat)
    requires HighSurrogate(high) && LowSurrogate(low)
    ensures 0x10000 <= cp <= MAX_CODE_POINT
  {
    0x10000 + (high - 0xD800) * 0x400 + (low - 0xDC00)
  }

  function HexDigit(b: byte): (r: Option<nat>)
    ensures r.Some? ==> r.value < 16
  {
    if 48 <= b <= 57 then Some(b - 48)
    else if 65 <= b <= 70 then Some(b - 55)
    else if 97 <= b <= 102 then Some(b - 87)
    else None
  }

  /** The lower-case digit of a value below sixteen. */
  function HexChar(n: nat): (b: byte)
    requires n < 16
    ensures HexDigit(b) == Some(n)
  {
    if n < 10 then 48 + n else 87 + n
  }

  /** The digits from 0 to 15 as they are written, in either case. */
  const LOWER_DIGITS: string := "0123456789abcdef"
  const UPPER_DIGITS: string := "0123456789ABCDEF"

  lemma HexDigitExactly(b: byte, n: nat)
    ensures HexDigit(b) == Some(n) <==> n < 16 && (b == LOWER_DIGITS[n] as int || b == UPPER_DIGITS[n] as int)
    ensures n < 16 ==> HexChar(n) == LOWER_DIGITS[n] as int
  {
  }

  /** Four bytes that should be hexadecimal digits, most significant first. */
  datatype Hex4 = Hex4(a: byte, b: byte, c: byte, d: byte) {
    predicate AreDigits() {
      HexDigit(a).Some? && HexDigit(b).Some? && HexDigit(c).Some? && HexDigit(d).Some?
    }

    function Value(): (r: nat)
      requires AreDigits()
      ensures r <= 0xFFFF
    {
      ((HexDigit(a).value * 16 + HexDigit(b).value) * 16 + HexDigit(c).value) * 16 + HexDigit(d).value
    }

    /** What the hexadecimal reader returns: the value, or 0 when one of the bytes is no digit. */
    function Read(): (r: nat)
      ensures r <= 0xFFFF
    {
      if AreDigits() then Value() else 0
    }

    /** The escape \uXXXX with these digits. */
    function Escaped(): bytes { [92, 117, a, b, c, d] }
  }

  /** The four digits of a number below 65536, the most significant one first, have that number as their value. */
  lemma HexValue(u: nat, h: Hex4)
    requires u <= 0xFFFF
    requires HexDigit(h.a) == Some(u / 16 / 16 / 16) && HexDigit(h.b) == Some(u / 16 / 16 % 16)
    requires HexDigit(h.c) == Some(u / 16 % 16) && HexDigit(h.d) == Some(u % 16)
    ensures h.AreDigits() && h.Value() == u && h.Read() == u
  {
    hide HexDigit;
    var a, b := u / 16, u / 16 / 16;
    assert u == a * 16 + u % 16 && a == b * 16 + a % 16 && b == b / 16 * 16 + b % 16;
  }

  /** Every code point above U+FFFF is that of the surrogate pair that RFC 2781 section 2.1 makes of it. */
  lemma PairOf(cp: nat)
    requires 0x10000 <= cp <= 0x10FFFF
    ensures var high, low := 0xD800 + (cp - 0x10000) / 0x400, 0xDC00 + (cp - 0x10000) % 0x400;
      HighSurrogate(high) && LowSurrogate(low) && FromPair(high, low) == cp
  {
  }
}
