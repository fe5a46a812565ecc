/** Numbers: every number of the grammar is read to its end, and what else the parser takes for one. */
module JsonNumbers {
  import opened Bytes
  import opened JsonText
  import opened JsonGrammar

  predicate AreDigits(t: bytes, i: nat, j: nat) { i <= j <= |t| && forall k :: i <= k < j ==> 48 <= t[k] <= 57 }

  /** Digits up to a byte that is none. */
  predicate DigitsUpTo(t: bytes, i: nat, j: nat) { AreDigits(t, i, j) && (j < |t| ==> !(48 <= t[j] <= 57)) }

  /** Where the digits of an exponent begin, behind its letter at `f` and its sign. */
  function ExponentDigits(t: bytes, f: nat): nat {
    if f + 1 < |t| && (t[f + 1] == 43 || t[f + 1] == 45) then f + 2 else f + 1
  }

  predicate ExponentLetter(t: bytes, f: nat) { f < |t| && (t[f] == 101 || t[f] == 69) }

  /** A number by RFC 8259 section 6, leading zeros aside: an optional minus up to `s`, digits up to `d`, an optional
      fraction up to `f` and an optional exponent up to the end. */
  predicate IsNumber(t: bytes, s: nat, d: nat, f: nat) {
    t != [] && s == (if t[0] == 45 then 1 else 0) && s < d <= f <= |t| && AreDigits(t, s, d) &&
    (f == d || (t[d] == 46 && d + 1 < f && AreDigits(t, d + 1, f))) &&
    (f == |t| || (ExponentLetter(t, f) && ExponentDigits(t, f) < |t| && AreDigits(t, ExponentDigits(t, f), |t|)))
  }

  /** What the C library takes for a number at the beginning of a text: also a plus sign in front, and digits on only
      one side of the point. It ends at `e`, and always as late as it can. */
  predicate Leads(t: bytes, s: nat, d: nat, f: nat, e: nat) {
    s == (if t != [] && (t[0] == 45 || t[0] == 43) then 1 else 0) && DigitsUpTo(t, s, d) &&
    (if d < |t| && t[d] == 46 then DigitsUpTo(t, d + 1, f) else f == d) && (s < d || d + 1 < f) &&
    if ExponentLetter(t, f) && ExponentDigits(t, f) < |t| && 48 <= t[ExponentDigits(t, f)] <= 57
    then DigitsUpTo(t, ExponentDigits(t, f), e)
    else e == f
  }

  lemma {:induction false} DigitsEndIs(t: bytes, i: nat, j: nat)
    requires i <= |t|
    ensures DigitsEnd(t, i) == j <==> DigitsUpTo(t, i, j)
    decreases |t| - i
  {
    if DigitsUpTo(t, i, j) {
      var k := DigitsEnd(t, i);
      assert k < j ==> Digit(t[k]);
      assert j < k ==> Digit(t[j]);
    }
  }

  lemma ExponentEndIs(t: bytes, f: nat, e: nat)
    requires f <= |t|
    ensures ExponentEnd(t, f) == e <==>
      if ExponentLetter(t, f) && ExponentDigits(t, f) < |t| && 48 <= t[ExponentDigits(t, f)] <= 57
      then DigitsUpTo(t, ExponentDigits(t, f), e)
      else e == f
  {
    hide DigitsEnd;
    if ExponentLetter(t, f) && ExponentDigits(t, f) <= |t| {
      var j := ExponentDigits(t, f);
      DigitsEndIs(t, j, e);
      DigitsEndIs(t, j, j);
    }
  }

  /** The number that digits stand for, when there is nothing else in it; any other number keeps its spelling. */
  function Meaning(t: bytes, s: nat, d: nat): Value
    requires s <= d <= |t|
  {
    var digits := t[s..d];
    if d == |t| && s < d && AreDigits(digits, 0, |digits|) && DigitsValue(digits) < 1_000_000_000_000_000 then
      var n: int := DigitsValue(digits);
      if t[0] != 45 then Number(n) else if n > 0 then Number(-n) else Decimal(t)
    else Decimal(t)
  }

  /** The value of digits, read from the left. */
  function DigitsValue(t: bytes): nat
    requires AreDigits(t, 0, |t|)
  {
    if t == [] then 0 else (t[0] - 48) * Power(|t| - 1) + DigitsValue(t[1..])
  }

  function Power(n: nat): nat { if n == 0 then 1 else 10 * Power(n - 1) }

  lemma {:induction false} SameValue(t: bytes)
    requires AreDigits(t, 0, |t|)
    ensures ValueOfDigits(t) == DigitsValue(t)
    decreases |t|
  {
    if |t| == 1 {
      assert t[..0] == [] && t[1..] == [];
    } else if t != [] {
      var front, rest := t[..|t| - 1], t[1..];
      SameValue(front);
      SameValue(rest);
      SameValue(front[1..]);
      assert front[1..] == rest[..|rest| - 1] && front[0] == t[0] && rest[|rest| - 1] == t[|t| - 1];
      assert DigitsValue(front) == (t[0] - 48) * Power(|t| - 2) + DigitsValue(front[1..]);
      Shift(t[0] - 48, Power(|t| - 2), DigitsValue(front[1..]), t[|t| - 1] - 48);
    }
  }

  lemma Shift(a: int, p: int, b: int, c: int)
    ensures (a * p + b) * 10 + c == a * (10 * p) + (b * 10 + c)
  {
  }

  /** The C library reads a number exactly when one leads the text, up to its end, and for its value. */
  lemma StrtodExactly(t: bytes, s: nat, d: nat, f: nat, e: nat)
    requires Leads(t, s, d, f, e)
    ensures Strtod(t) == Some((Meaning(t[..e], s, d), e))
  {
    hide DigitsEnd, ExponentEnd, ValueOfDigits, DigitsValue;
    DigitsEndIs(t, s, d);
    if d < |t| && t[d] == 46 {
      DigitsEndIs(t, d + 1, f);
    }
    ExponentEndIs(t, f, e);
    LeadsInOrder(t, s, d, f, e);
    assert t[..e][s..d] == t[s..d] && (0 < e ==> t[..e][0] == t[0]);
    SameValue(t[s..d]);
  }

  lemma LeadsInOrder(t: bytes, s: nat, d: nat, f: nat, e: nat)
    requires Leads(t, s, d, f, e)
    ensures s <= d <= f <= e <= |t| && (e == d ==> s < d)
  {
  }

  lemma StrtodLeads(t: bytes) returns (s: nat, d: nat, f: nat, e: nat)
    requires Strtod(t).Some?
    ensures Leads(t, s, d, f, e)
  {
    hide DigitsEnd, ExponentEnd, ValueOfDigits;
    s := if t != [] && (t[0] == MINUS || t[0] == PLUS) then 1 else 0;
    d := DigitsEnd(t, s);
    f := if d < |t| && t[d] == DOT then DigitsEnd(t, d + 1) else d;
    e := ExponentEnd(t, f);
    DigitsEndIs(t, s, d);
    if d < |t| && t[d] == 46 {
      DigitsEndIs(t, d + 1, f);
    }
    ExponentEndIs(t, f, e);
  }

  /** A number of the grammar leads its own text up to the end. */
  lemma NumberLeads(t: bytes, s: nat, d: nat, f: nat)
    requires IsNumber(t, s, d, f)
    ensures Leads(t, s, d, f, |t|)
  {
  }

  lemma {:induction false} RunOver(c: bytes, i: nat, j: nat, k: nat)
    requires i <= j < |c| && j - i <= k && !NumberByte(c[j]) && forall l :: i <= l < j ==> NumberByte(c[l])
    ensures RunEnd(c, i, k) == j
    decreases j - i
  {
    if i < j {
      RunOver(c, i + 1, j, k - 1);
    }
  }

  lemma NumberBytes(t: bytes, s: nat, d: nat, f: nat)
    requires IsNumber(t, s, d, f)
    ensures forall k :: 0 <= k < |t| ==> NumberByte(t[k])
  {
  }

  /** Every number of at most 63 bytes that no further number byte follows is read to its end. */
  lemma NumberIsRead(c: bytes, i: nat, t: bytes, s: nat, d: nat, f: nat)
    requires Terminated(c) && i + |t| < |c| && c[i..i + |t|] == t && IsNumber(t, s, d, f) && |t| <= 63
    requires var next := c[i + |t|]; !(48 <= next <= 57) && next !in {43, 45, 46, 69, 101}
    ensures JsonGrammar.ParseNumber(c, i) == Some((Meaning(t, s, d), i + |t|))
  {
    hide Strtod, IsNumber, RunEnd, Meaning;
    NumberBytes(t, s, d, f);
    forall l | i <= l < i + |t| ensures NumberByte(c[l]) {
      assert c[l] == t[l - i];
    }
    RunOver(c, i, i + |t|, 63);
    NumberLeads(t, s, d, f);
    StrtodExactly(t, s, d, f, |t|);
    assert t[..|t|] == t;
    NumberInOrder(t, s, d, f);
  }

  lemma NumberInOrder(t: bytes, s: nat, d: nat, f: nat)
    requires IsNumber(t, s, d, f)
    ensures s <= d <= |t|
  {
  }
}
