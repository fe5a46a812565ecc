/** When an entry matches exactly the keys that satisfy its row, and when it may be written with the header fields of
    another stage. */
module TcamEntries {
  import opened Bytes
  import opened Efsm
  import opened Tcam

  // ---------------------------------------------------------------- one slot

  /** A slot has what the entry asks of it. */
  predicate SlotWanted(conditions: seq<PackedCondition>, results: seq<Outcome>, hfs: seq<HeaderField>, p: nat,
                       slot: bv32)
    requires Writable(conditions, results, hfs)
  {
    Agrees(slot, Asked(conditions, results, hfs, |conditions|, p), Open(conditions, results, hfs, |conditions|, p))
  }

  /** A slot has what the row wants of it. */
  predicate SlotHolds(conditions: seq<PackedCondition>, results: seq<Outcome>, hfs: seq<HeaderField>, p: nat,
                      slot: bv32)
    requires Writable(conditions, results, hfs)
  {
    forall l :: 0 <= l < |conditions| && Constrains(conditions, results, hfs, l, p) ==>
      ((results[l] == IsTrue) <==> ExactHolds(slot, conditions[l]))
  }

  /** The bytes of a field of three bytes. */
  function Third(x: bv32): bv32 { x & 0xffffff }

  function Swap3(x: bv32): bv32 { ((x & 0xff) << 16) | (x & 0xff00) | ((x >> 16) & 0xff) }

  lemma Number3Inverse(x: bv32)
    ensures Swap3(Number3(x)) == Third(x) && Number3(Third(x)) == Number3(x) && Shown(x, 0xff000000) == Third(x)
  {
  }

  lemma ByteTwice(x: bv32)
    ensures Byte(Byte(x)) == Byte(x)
  {
  }

  /** The bits of its field decide whether an exact condition is true of a slot. */
  lemma HoldsByValue(slot: bv32, c: PackedCondition)
    requires c.Exact? && Encodable(c)
    ensures ExactHolds(Shown(slot, MaskOf(c)), c) <==> ExactHolds(slot, c)
  {
    hide Shown, Number2, Number3, Number4, Byte, Half, Third, Encoded;
    ShownByte(slot);
    ByteTwice(slot);
    Number2Half(slot);
    Number3Inverse(slot);
    Number4Inverse(slot);
  }

  /** An exact condition is true of only one value of its field. */
  lemma HoldsOnce(s: bv32, t: bv32, c: PackedCondition)
    requires c.Exact? && Encodable(c) && ExactHolds(s, c) && ExactHolds(t, c)
    ensures Shown(s, MaskOf(c)) == Shown(t, MaskOf(c))
  {
    hide Shown, Number2, Number3, Number4, Byte, Half, Third, Swap2, Swap3, Swap4, Encoded;
    ShownByte(s);
    ShownByte(t);
    Number2Inverse(s);
    Number2Inverse(t);
    Number2Half(s);
    Number2Half(t);
    Number3Inverse(s);
    Number3Inverse(t);
    Number4Inverse(s);
    Number4Inverse(t);
  }

  lemma CommonTwice(m: bv32)
    ensures Common(m, m) == m && Common(0xffffffff, m) == m
  {
  }

  /** All conditions on a slot look at the same field, so the slot leaves open what that field does. */
  lemma {:induction false} OpenIsMask(conditions: seq<PackedCondition>, results: seq<Outcome>, hfs: seq<HeaderField>,
                                      n: nat,
                                      p: nat, i: nat)
    requires Writable(conditions, results, hfs) && n <= |conditions| && i < |conditions|
    requires Constrains(conditions, results, hfs, i, p)
    requires forall l :: 0 <= l < n && Constrains(conditions, results, hfs, l, p) ==>
      conditions[l].field == conditions[i].field
    ensures Open(conditions, results, hfs, n, p) in {0xffffffff, MaskOf(conditions[i])}
    ensures i < n ==> Open(conditions, results, hfs, n, p) == MaskOf(conditions[i])
  {
    hide Common, MaskFromField;
    if n > 0 {
      OpenIsMask(conditions, results, hfs, n - 1, p, i);
      CommonTwice(MaskOf(conditions[i]));
    }
  }

  /** All conditions on a slot are exact, used by the row, and look at the same field. */
  lemma OnSlot(conditions: seq<PackedCondition>, results: seq<Outcome>, hfs: seq<HeaderField>, p: nat)
    requires Writable(conditions, results, hfs)
    ensures forall l :: 0 <= l < |conditions| && Constrains(conditions, results, hfs, l, p) ==>
      conditions[l].Exact? && Encodable(conditions[l]) && results[l] != DontCare
    ensures Listing(conditions, results, hfs) ==>
      forall l :: 0 <= l < |conditions| && Constrains(conditions, results, hfs, l, p) ==>
        p < |hfs| && conditions[l].field == hfs[p]
  {
  }

  /** What the slot shows of its field decides what the entry says of it. */
  lemma WantedByValue(conditions: seq<PackedCondition>, results: seq<Outcome>, hfs: seq<HeaderField>, p: nat, i: nat,
                      slot: bv32)
    requires Listing(conditions, results, hfs) && i < |conditions| && Constrains(conditions, results, hfs, i, p)
    ensures var asked, mask := Asked(conditions, results, hfs, |conditions|, p), MaskOf(conditions[i]);
      SlotWanted(conditions, results, hfs, p, slot) <==> Shown(slot, mask) == Shown(asked, mask)
  {
    hide Shown, MaskOf, Asked, Open, Constrains;
    OnSlot(conditions, results, hfs, p);
    OpenIsMask(conditions, results, hfs, |conditions|, p, i);
  }

  /** Slots that show the same value of the field are the same to the row. */
  lemma HoldsAlike(conditions: seq<PackedCondition>, results: seq<Outcome>, hfs: seq<HeaderField>, p: nat, i: nat,
                   s: bv32, t: bv32)
    requires Listing(conditions, results, hfs) && i < |conditions| && Constrains(conditions, results, hfs, i, p)
    requires Shown(s, MaskOf(conditions[i])) == Shown(t, MaskOf(conditions[i]))
    ensures SlotHolds(conditions, results, hfs, p, s) <==> SlotHolds(conditions, results, hfs, p, t)
  {
    hide Shown, MaskOf, ExactHolds, Constrains;
    OnSlot(conditions, results, hfs, p);
    forall l | 0 <= l < |conditions| && Constrains(conditions, results, hfs, l, p)
      ensures ExactHolds(s, conditions[l]) <==> ExactHolds(t, conditions[l]) {
      MaskByField(conditions[l], conditions[i]);
      HoldsByValue(s, conditions[l]);
      HoldsByValue(t, conditions[l]);
    }
  }

  lemma MaskByField(c: PackedCondition, d: PackedCondition)
    requires c.Exact? && d.Exact? && Encodable(c) && Encodable(d) && c.field == d.field
    ensures MaskOf(c) == MaskOf(d)
  {
  }

  // ---------------------------------------------------------------- when an entry is its row

  /** The constants on a slot, as they are encoded and one on top of the other, are a value of the field for which every
      condition there comes out as wanted. */
  predicate Consistent(conditions: seq<PackedCondition>, results: seq<Outcome>, hfs: seq<HeaderField>, p: nat)
    requires Writable(conditions, results, hfs)
  {
    SlotHolds(conditions, results, hfs, p, Asked(conditions, results, hfs, |conditions|, p))
  }

  /** The row wants the field in a slot to have a constant, or not to have any value but one. */
  ghost predicate Pinned(conditions: seq<PackedCondition>, results: seq<Outcome>, hfs: seq<HeaderField>, p: nat)
    requires Writable(conditions, results, hfs)
  {
    (exists l :: 0 <= l < |conditions| && Constrains(conditions, results, hfs, l, p) && results[l] == IsTrue) ||
    forall slot: bv32 :: SlotWanted(conditions, results, hfs, p, slot) || SomeEqual(conditions, results, hfs, p, slot)
  }

  /** The field in a slot has one of the constants that conditions compare it with. */
  predicate SomeEqual(conditions: seq<PackedCondition>, results: seq<Outcome>, hfs: seq<HeaderField>, p: nat,
                      slot: bv32)
    requires Writable(conditions, results, hfs)
  {
    exists l :: 0 <= l < |conditions| && Constrains(conditions, results, hfs, l, p) && ExactHolds(slot, conditions[l])
  }

  predicate SlotUsed(conditions: seq<PackedCondition>, results: seq<Outcome>, hfs: seq<HeaderField>, p: nat)
    requires Writable(conditions, results, hfs)
  {
    exists l :: 0 <= l < |conditions| && Constrains(conditions, results, hfs, l, p)
  }

  /** Every header field that the row uses is consistent and pinned. */
  ghost predicate Unambiguous(conditions: seq<PackedCondition>, results: seq<Outcome>, hfs: seq<HeaderField>)
    requires Writable(conditions, results, hfs)
  {
    forall p :: 0 <= p < 3 && SlotUsed(conditions, results, hfs, p) ==>
      Consistent(conditions, results, hfs, p) && Pinned(conditions, results, hfs, p)
  }

  /** On a consistent and pinned field, entry and row agree. */
  lemma SlotIsExact(conditions: seq<PackedCondition>, results: seq<Outcome>, hfs: seq<HeaderField>, p: nat, slot: bv32)
    requires Listing(conditions, results, hfs) && SlotUsed(conditions, results, hfs, p)
    requires Consistent(conditions, results, hfs, p) && Pinned(conditions, results, hfs, p)
    ensures SlotWanted(conditions, results, hfs, p, slot) <==> SlotHolds(conditions, results, hfs, p, slot)
  {
    hide Shown, MaskOf, Asked, Open, Constrains, SlotWanted, SlotHolds, ExactHolds;
    var i :| 0 <= i < |conditions| && Constrains(conditions, results, hfs, i, p);
    var asked := Asked(conditions, results, hfs, |conditions|, p);
    WantedByValue(conditions, results, hfs, p, i, slot);
    OnSlot(conditions, results, hfs, p);
    if SlotWanted(conditions, results, hfs, p, slot) {
      HoldsAlike(conditions, results, hfs, p, i, slot, asked);
    }
    if SlotHolds(conditions, results, hfs, p, slot) {
      if l :| 0 <= l < |conditions| && Constrains(conditions, results, hfs, l, p) && results[l] == IsTrue {
        HoldsIsTrue(conditions, results, hfs, p, l, slot);
        HoldsIsTrue(conditions, results, hfs, p, l, asked);
        HoldsOnce(slot, asked, conditions[l]);
        MaskByField(conditions[l], conditions[i]);
      } else {
        NoneEqual(conditions, results, hfs, p, slot);
      }
    }
  }

  lemma HoldsIsTrue(conditions: seq<PackedCondition>, results: seq<Outcome>, hfs: seq<HeaderField>, p: nat, l: nat,
                    slot: bv32)
    requires Writable(conditions, results, hfs) && l < |conditions| && Constrains(conditions, results, hfs, l, p)
    requires SlotHolds(conditions, results, hfs, p, slot)
    ensures results[l] == IsTrue ==> ExactHolds(slot, conditions[l])
  {
    hide ExactHolds;
  }

  lemma NoneEqual(conditions: seq<PackedCondition>, results: seq<Outcome>, hfs: seq<HeaderField>, p: nat, slot: bv32)
    requires Writable(conditions, results, hfs) && SlotHolds(conditions, results, hfs, p, slot)
    requires forall l :: 0 <= l < |conditions| && Constrains(conditions, results, hfs, l, p) ==> results[l] != IsTrue
    ensures !SomeEqual(conditions, results, hfs, p, slot)
  {
    hide ExactHolds;
  }

  /** A field that is not pinned has a value that the row accepts and the entry does not. */
  lemma NotPinned(conditions: seq<PackedCondition>, results: seq<Outcome>, hfs: seq<HeaderField>, p: nat)
    returns (slot: bv32)
    requires Listing(conditions, results, hfs) && !Pinned(conditions, results, hfs, p)
    ensures SlotHolds(conditions, results, hfs, p, slot) && !SlotWanted(conditions, results, hfs, p, slot)
  {
    hide SlotWanted, ExactHolds, Constrains;
    slot :| !SlotWanted(conditions, results, hfs, p, slot) && !SomeEqual(conditions, results, hfs, p, slot);
  }

  /** A slot that no condition looks at is open for the entry and for the row. */
  lemma NotUsed(conditions: seq<PackedCondition>, results: seq<Outcome>, hfs: seq<HeaderField>, p: nat, slot: bv32)
    requires Listing(conditions, results, hfs) && !SlotUsed(conditions, results, hfs, p)
    ensures SlotWanted(conditions, results, hfs, p, slot) && SlotHolds(conditions, results, hfs, p, slot)
  {
    hide Agrees, Constrains, Encoded, Asked, Open;
    AskedOnce(conditions, results, hfs, |conditions|, p, Exact(EventField(""), 1));
    AllOpen(slot);
  }

  /** The part of a key besides its slots. */
  ghost predicate RestHolds(state: bv32, conditions: seq<PackedCondition>, results: seq<Outcome>, hfs: seq<HeaderField>,
                            k: RuntimeKey)
    requires Writable(conditions, results, hfs) && k.Valid()
  {
    (state == 255 || k.state == StateBits(state)) &&
    HeldOutcomes(ComputedResults(conditions, results, |conditions|), k.conditions)
  }

  lemma RowBySlots(state: bv32, conditions: seq<PackedCondition>, results: seq<Outcome>, hfs: seq<HeaderField>,
                   k: RuntimeKey)
    requires Listing(conditions, results, hfs) && k.Valid()
    ensures RowHolds(state, conditions, results, hfs, k)
       <==> RestHolds(state, conditions, results, hfs, k) &&
            forall p :: 0 <= p < 3 ==> SlotHolds(conditions, results, hfs, p, k.slots[p])
  {
    hide ExactHolds, HeldOutcomes, StateBits, Encoded, ComputedResults;
    ComputedPart(conditions, results, hfs, k);
    forall i | 0 <= i < |conditions| && Used(conditions, results, i)
      ensures Constrains(conditions, results, hfs, i, FindPosition(hfs, conditions[i].field))
      ensures FindPosition(hfs, conditions[i].field) < 3
      ensures CondHolds(conditions, results, hfs, i, k)
           == ExactHolds(k.slots[FindPosition(hfs, conditions[i].field)], conditions[i]) {
    }
  }

  lemma WantedBySlots(state: bv32, conditions: seq<PackedCondition>, results: seq<Outcome>, hfs: seq<HeaderField>,
                      k: RuntimeKey)
    requires Writable(conditions, results, hfs) && k.Valid()
    ensures Wanted(state, conditions, results, hfs, k)
       <==> RestHolds(state, conditions, results, hfs, k) &&
            forall p :: 0 <= p < 3 ==> SlotWanted(conditions, results, hfs, p, k.slots[p])
  {
    hide Agrees, Asked, Open, HeldOutcomes, StateBits, ComputedResults;
  }

  function WithSlot(k: RuntimeKey, p: nat, slot: bv32): (r: RuntimeKey)
    requires k.Valid() && p < 3
    ensures r.Valid()
  {
    k.(slots := k.slots[p := slot])
  }

  /** The entry matches exactly the keys that satisfy the row if and only if every field that the row uses is consistent
      and pinned. */
  lemma EntryIsRow(state: bv32, conditions: seq<PackedCondition>, results: seq<Outcome>, hfs: seq<HeaderField>)
    requires Listing(conditions, results, hfs)
    ensures (forall k: RuntimeKey :: k.Valid() ==>
              (Wanted(state, conditions, results, hfs, k) <==> RowHolds(state, conditions, results, hfs, k)))
       <==> Unambiguous(conditions, results, hfs)
  {
    hide Wanted, RowHolds, RestHolds, SlotWanted, SlotHolds, SlotUsed, Consistent, Pinned;
    if Unambiguous(conditions, results, hfs) {
      forall k: RuntimeKey | k.Valid()
        ensures Wanted(state, conditions, results, hfs, k) <==> RowHolds(state, conditions, results, hfs, k) {
        UnambiguousKey(state, conditions, results, hfs, k);
      }
    } else {
      var p :| 0 <= p < 3 && SlotUsed(conditions, results, hfs, p) &&
        !(Consistent(conditions, results, hfs, p) && Pinned(conditions, results, hfs, p));
      var k := AmbiguousKey(state, conditions, results, hfs, p);
    }
  }

  lemma UnambiguousKey(state: bv32, conditions: seq<PackedCondition>, results: seq<Outcome>, hfs: seq<HeaderField>,
                       k: RuntimeKey)
    requires Listing(conditions, results, hfs) && Unambiguous(conditions, results, hfs) && k.Valid()
    ensures Wanted(state, conditions, results, hfs, k) <==> RowHolds(state, conditions, results, hfs, k)
  {
    hide Wanted, RowHolds, RestHolds, SlotWanted, SlotHolds, SlotUsed, Consistent, Pinned;
    RowBySlots(state, conditions, results, hfs, k);
    WantedBySlots(state, conditions, results, hfs, k);
    forall p | 0 <= p < 3
      ensures SlotWanted(conditions, results, hfs, p, k.slots[p])
         <==> SlotHolds(conditions, results, hfs, p, k.slots[p]) {
      if SlotUsed(conditions, results, hfs, p) {
        SlotIsExact(conditions, results, hfs, p, k.slots[p]);
      } else {
        NotUsed(conditions, results, hfs, p, k.slots[p]);
      }
    }
  }

  /** A key for which entry and row differ, when some field is not consistent or not pinned. */
  lemma AmbiguousKey(state: bv32, conditions: seq<PackedCondition>, results: seq<Outcome>, hfs: seq<HeaderField>,
                     p: nat)
    returns (k: RuntimeKey)
    requires Listing(conditions, results, hfs) && p < 3 && SlotUsed(conditions, results, hfs, p)
    requires !(Consistent(conditions, results, hfs, p) && Pinned(conditions, results, hfs, p))
    ensures k.Valid() && (Wanted(state, conditions, results, hfs, k) != RowHolds(state, conditions, results, hfs, k))
  {
    hide Wanted, RowHolds, RestHolds, SlotWanted, SlotHolds, SlotUsed, Pinned, Witness;
    k := Witness(state, conditions, results, hfs);
    WitnessIsWanted(state, conditions, results, hfs);
    RowBySlots(state, conditions, results, hfs, k);
    WantedBySlots(state, conditions, results, hfs, k);
    WitnessSlot(state, conditions, results, hfs, p);
    if RowHolds(state, conditions, results, hfs, k) {
      var slot := NotPinned(conditions, results, hfs, p);
      var l := WithSlot(k, p, slot);
      RowBySlots(state, conditions, results, hfs, l);
      WantedBySlots(state, conditions, results, hfs, l);
      RestIgnoresSlots(state, conditions, results, hfs, k, p, slot);
      assert l.slots[p] == slot && forall q :: 0 <= q < 3 && q != p ==> l.slots[q] == k.slots[q];
      assert !SlotWanted(conditions, results, hfs, p, l.slots[p]);
      k := l;
    }
  }

  lemma WitnessSlot(state: bv32, conditions: seq<PackedCondition>, results: seq<Outcome>, hfs: seq<HeaderField>, p: nat)
    requires Writable(conditions, results, hfs) && p < 3
    ensures Witness(state, conditions, results, hfs).slots[p] == Asked(conditions, results, hfs, |conditions|, p)
  {
    hide Asked, ComputedResults;
  }

  lemma RestIgnoresSlots(state: bv32, conditions: seq<PackedCondition>, results: seq<Outcome>, hfs: seq<HeaderField>,
                         k: RuntimeKey, p: nat, slot: bv32)
    requires Writable(conditions, results, hfs) && k.Valid() && p < 3
    ensures RestHolds(state, conditions, results, hfs, WithSlot(k, p, slot))
         == RestHolds(state, conditions, results, hfs, k)
  {
    hide HeldOutcomes, ComputedResults, StateBits;
  }

  // ---------------------------------------------------------------- rows with few conditions

  function Push(x: bv32, odd: bool): bv32 { (x << 1) | (if odd then 1 else 0) }

  lemma PushInjective(x: bv32, y: bv32, b: bool, c: bool)
    requires x <= 0x7f && y <= 0x7f && Push(x, b) == Push(y, c)
    ensures x == y && b == c
  {
    assert Push(x, b) & 1 == if b then 1 else 0;
    assert Push(x, b) >> 1 == x && Push(y, c) >> 1 == y;
  }

  lemma PushBelow(x: bv32, b: bool, m: bv32)
    requires x <= m && m <= 0x7f
    ensures Push(x, b) <= Push(m, true)
  {
  }

  /** The greatest number of `n` bits. */
  function Greatest(n: nat): bv32 { if n == 0 then 0 else Push(Greatest(n - 1), true) }

  lemma Greatests(n: nat)
    requires n < 8
    ensures Greatest(n) <= 0x7f && Greatest(8) == 0xff
  {
    assert Greatest(1) == 1 && Greatest(2) == 3 && Greatest(3) == 7 && Greatest(4) == 0xf;
    assert Greatest(5) == 0x1f && Greatest(6) == 0x3f && Greatest(7) == 0x7f;
  }

  /** The byte whose `n` low bits are those of `k`. */
  function Digits(k: nat, n: nat): bv32 { if n == 0 then 0 else Push(Digits(k / 2, n - 1), k % 2 == 1) }

  lemma FirstDigit(k: nat, n: nat)
    ensures Digits(k, 0) <= Greatest(0)
    ensures n > 0 ==> Digits(k, n) == Push(Digits(k / 2, n - 1), k % 2 == 1)
    ensures n > 0 ==> Greatest(n) == Push(Greatest(n - 1), true)
  {
    hide Push;
  }

  lemma {:induction false} DigitsBelow(k: nat, n: nat)
    requires n <= 8
    ensures Digits(k, n) <= Greatest(n)
  {
    hide Push, Digits, Greatest;
    FirstDigit(k, n);
    if n > 0 {
      DigitsBelow(k / 2, n - 1);
      Greatests(n - 1);
      PushBelow(Digits(k / 2, n - 1), k % 2 == 1, Greatest(n - 1));
    }
  }

  lemma DigitsSmall(k: nat, n: nat)
    requires n < 8
    ensures Digits(k, n) <= 0x7f
  {
    hide Digits, Greatest;
    DigitsBelow(k, n);
    Greatests(n);
  }

  function Powers(n: nat): nat { if n == 0 then 1 else 2 * Powers(n - 1) }

  lemma {:induction false} DigitsApart(j: nat, k: nat, n: nat)
    requires n <= 8 && j < Powers(n) && k < Powers(n) && Digits(j, n) == Digits(k, n)
    ensures j == k
  {
    hide Push;
    if n > 0 {
      DigitsSmall(j / 2, n - 1);
      DigitsSmall(k / 2, n - 1);
      PushInjective(Digits(j / 2, n - 1), Digits(k / 2, n - 1), j % 2 == 1, k % 2 == 1);
      DigitsApart(j / 2, k / 2, n - 1);
    }
  }

  /** There are more bytes than are taken. */
  lemma {:induction false} FreeByte(taken: seq<bv32>, m: nat) returns (k: nat)
    requires |taken| < m <= 256
    ensures k < m && Digits(k, 8) !in taken
    decreases m
  {
    k := m - 1;
    if i :| 0 <= i < |taken| && taken[i] == Digits(k, 8) {
      var rest := taken[..i] + taken[i + 1..];
      k := FreeByte(rest, m - 1);
      assert Powers(8) == 256;
      if Digits(k, 8) == Digits(m - 1, 8) {
        DigitsApart(k, m - 1, 8);
      }
      forall l | 0 <= l < |taken| ensures taken[l] != Digits(k, 8) {
        assert l < i ==> taken[l] == rest[l];
        assert l > i ==> taken[l] == rest[l - 1];
      }
    }
  }

  lemma LowByteShown(s: bv32, t: bv32, c: PackedCondition)
    requires c.Exact? && Encodable(c)
    ensures Shown(s, MaskOf(c)) == Shown(t, MaskOf(c)) ==> Byte(s) == Byte(t)
  {
  }

  lemma ByteOfSmall(s: bv32)
    ensures s <= 0xff ==> Byte(s) == s
  {
  }

  /** The low byte of the value of which a condition is true. */
  ghost function TakenBy(c: PackedCondition): (r: bv32)
    requires c.Exact? && Encodable(c)
    ensures forall s :: ExactHolds(s, c) ==> Byte(s) == r
  {
    if s :| ExactHolds(s, c) then
      assert forall t :: ExactHolds(t, c) ==> Byte(t) == Byte(s) by {
        hide ExactHolds, Byte, Shown, MaskOf;
        forall t | ExactHolds(t, c) ensures Byte(t) == Byte(s) {
          HoldsOnce(s, t, c);
          LowByteShown(s, t, c);
        }
      }
      Byte(s)
    else 0
  }

  /** In a row with fewer than 255 conditions, a field is pinned exactly when the row wants it to have a constant: there
      are not enough conditions to shut out all other values. */
  lemma PinnedByTrue(conditions: seq<PackedCondition>, results: seq<Outcome>, hfs: seq<HeaderField>, p: nat)
    requires Listing(conditions, results, hfs) && SlotUsed(conditions, results, hfs, p) && |conditions| < 255
    ensures Pinned(conditions, results, hfs, p)
       <==> exists l :: 0 <= l < |conditions| && Constrains(conditions, results, hfs, l, p) && results[l] == IsTrue
  {
    hide Constrains, SlotWanted, ExactHolds, Digits, Greatest, MaskOf, Shown, Byte, Asked, Open,
      TakenBy;
    OnSlot(conditions, results, hfs, p);
    var i :| 0 <= i < |conditions| && Constrains(conditions, results, hfs, i, p);
    var asked := Asked(conditions, results, hfs, |conditions|, p);
    var taken := seq(|conditions|, l requires 0 <= l < |conditions| =>
      if Constrains(conditions, results, hfs, l, p) then TakenBy(conditions[l]) else 0);
    var all := taken + [Byte(asked)];
    var k := FreeByte(all, 256);
    var slot := Digits(k, 8);
    DigitsBelow(k, 8);
    Greatests(0);
    ByteOfSmall(slot);
    assert forall l :: 0 <= l < |all| ==> all[l] != slot;
    assert all[|taken|] == Byte(asked);
    WantedByValue(conditions, results, hfs, p, i, slot);
    LowByteShown(slot, asked, conditions[i]);
    assert !SlotWanted(conditions, results, hfs, p, slot);
    forall l | 0 <= l < |conditions| && Constrains(conditions, results, hfs, l, p)
      ensures !ExactHolds(slot, conditions[l]) {
      assert all[l] == TakenBy(conditions[l]);
    }
  }

  /** A row with fewer than 255 conditions has its entry match exactly the keys that satisfy it if and only if, on every
      field that it uses, one condition is wanted true and the constants make all of them come out as wanted. */
  lemma EntryOfFewConditions(state: bv32, conditions: seq<PackedCondition>, results: seq<Outcome>,
                             hfs: seq<HeaderField>)
    requires Listing(conditions, results, hfs) && |conditions| < 255
    ensures (forall k: RuntimeKey :: k.Valid() ==>
              (Wanted(state, conditions, results, hfs, k) <==> RowHolds(state, conditions, results, hfs, k)))
       <==> forall p :: 0 <= p < 3 && SlotUsed(conditions, results, hfs, p) ==>
              Consistent(conditions, results, hfs, p) &&
              exists l :: 0 <= l < |conditions| && Constrains(conditions, results, hfs, l, p) && results[l] == IsTrue
  {
    hide Wanted, RowHolds, SlotUsed, Consistent, Pinned, Constrains;
    EntryIsRow(state, conditions, results, hfs);
    forall p | 0 <= p < 3 && SlotUsed(conditions, results, hfs, p)
      ensures Pinned(conditions, results, hfs, p)
         <==> exists l :: 0 <= l < |conditions| && Constrains(conditions, results, hfs, l, p) && results[l] == IsTrue {
      PinnedByTrue(conditions, results, hfs, p);
    }
  }

  // ---------------------------------------------------------------- fields of another stage

  /** Two lists of header fields make an entry ask the same of every slot. */
  predicate SameAsked(conditions: seq<PackedCondition>, results: seq<Outcome>, first: seq<HeaderField>,
                      own: seq<HeaderField>)
    requires Writable(conditions, results, first) && Writable(conditions, results, own)
  {
    forall p :: 0 <= p < 3 ==>
      Open(conditions, results, first, |conditions|, p) == Open(conditions, results, own, |conditions|, p) &&
      SeenAsked(conditions, results, first, p) == SeenAsked(conditions, results, own, p)
  }

  /** What an entry asks of the bits of a slot that it does not leave open. */
  function SeenAsked(conditions: seq<PackedCondition>, results: seq<Outcome>, hfs: seq<HeaderField>, p: nat): bv32
    requires Writable(conditions, results, hfs)
  {
    Shown(Asked(conditions, results, hfs, |conditions|, p), Open(conditions, results, hfs, |conditions|, p))
  }

  lemma ShownTwice(a: bv32, o: bv32)
    ensures Shown(Shown(a, o), o) == Shown(a, o)
  {
  }

  /** Values that agree with one pair of words whenever they agree with another, and the other way round. */
  lemma SameWords(a: bv32, o: bv32, b: bv32, q: bv32)
    requires Shown(a, o) == a && Shown(b, q) == b
    requires Agrees(a, b, q) && Agrees(Both(a, o), b, q) && Agrees(b, a, o) && Agrees(Both(b, q), a, o)
    ensures a == b && o == q
  {
    hide Shown, Both;
    ShownBoth(a, o, q);
    ShownBoth(b, q, o);
    MutuallyShown(a, q, b, o);
    ShownWithin(a, o, q);
    ShownWithin(b, q, o);
    NothingApart(o, q);
  }

  lemma MutuallyShown(a: bv32, q: bv32, b: bv32, o: bv32)
    requires Shown(a, q) == b && Shown(b, o) == a
    ensures a == b
  {
  }

  lemma ShownWithin(a: bv32, o: bv32, q: bv32)
    requires Shown(a, o) == a && Both(a, Shown(o, q)) == a
    ensures Shown(o, q) == 0
  {
  }

  lemma NothingApart(o: bv32, q: bv32)
    requires Shown(o, q) == 0 && Shown(q, o) == 0
    ensures o == q
  {
  }

  lemma OpenBitsAgree(a: bv32, o: bv32)
    ensures Agrees(a, a, o) && Agrees(Both(a, o), a, o)
  {
    hide Shown, Both;
    ShownBoth(a, o, o);
    ShownItself(o);
    BothZero(Shown(a, o));
  }

  lemma ShownItself(o: bv32)
    ensures Shown(o, o) == 0
  {
  }

  lemma BothZero(a: bv32)
    ensures Both(a, 0) == a
  {
  }

  /** A wanted key stays wanted when one of its slots is replaced exactly if the new slot is wanted. */
  lemma ReplacedSlot(state: bv32, conditions: seq<PackedCondition>, results: seq<Outcome>, hfs: seq<HeaderField>,
                     k: RuntimeKey, p: nat, slot: bv32)
    requires Writable(conditions, results, hfs) && k.Valid() && p < 3 && Wanted(state, conditions, results, hfs, k)
    ensures Wanted(state, conditions, results, hfs, WithSlot(k, p, slot))
       <==> SlotWanted(conditions, results, hfs, p, slot)
  {
    hide Wanted, SlotWanted, RestHolds;
    var l := WithSlot(k, p, slot);
    WantedBySlots(state, conditions, results, hfs, k);
    WantedBySlots(state, conditions, results, hfs, l);
    RestIgnoresSlots(state, conditions, results, hfs, k, p, slot);
    assert l.slots[p] == slot && forall q :: 0 <= q < 3 && q != p ==> l.slots[q] == k.slots[q];
    assert SlotWanted(conditions, results, hfs, p, l.slots[p]) <==> SlotWanted(conditions, results, hfs, p, slot);
  }

  ghost predicate SameEntries(state: bv32, conditions: seq<PackedCondition>, results: seq<Outcome>,
                              first: seq<HeaderField>, own: seq<HeaderField>)
    requires Writable(conditions, results, first) && Writable(conditions, results, own)
  {
    forall k: RuntimeKey :: k.Valid() ==>
      (Wanted(state, conditions, results, first, k) <==> Wanted(state, conditions, results, own, k))
  }

  lemma SameSlots(state: bv32, conditions: seq<PackedCondition>, results: seq<Outcome>, first: seq<HeaderField>,
                  own: seq<HeaderField>, p: nat, slot: bv32)
    requires Writable(conditions, results, first) && Writable(conditions, results, own) && p < 3
    requires SameEntries(state, conditions, results, first, own)
    ensures SlotWanted(conditions, results, first, p, slot) ==> SlotWanted(conditions, results, own, p, slot)
  {
    hide Wanted, SlotWanted, Witness;
    var k := Witness(state, conditions, results, first);
    WitnessIsWanted(state, conditions, results, first);
    ReplacedSlot(state, conditions, results, first, k, p, slot);
    ReplacedSlot(state, conditions, results, own, k, p, slot);
  }

  lemma SameEntriesFlip(state: bv32, conditions: seq<PackedCondition>, results: seq<Outcome>, first: seq<HeaderField>,
                        own: seq<HeaderField>)
    requires Writable(conditions, results, first) && Writable(conditions, results, own)
    requires SameEntries(state, conditions, results, first, own)
    ensures SameEntries(state, conditions, results, own, first)
  {
  }

  lemma SlotsDecide(state: bv32, conditions: seq<PackedCondition>, results: seq<Outcome>, first: seq<HeaderField>,
                    own: seq<HeaderField>, p: nat)
    requires Writable(conditions, results, first) && Writable(conditions, results, own) && p < 3
    requires SameEntries(state, conditions, results, first, own)
    ensures Open(conditions, results, first, |conditions|, p) == Open(conditions, results, own, |conditions|, p)
    ensures SeenAsked(conditions, results, first, p) == SeenAsked(conditions, results, own, p)
  {
    hide Asked, Open, Shown, Both, SameEntries;
    var n := |conditions|;
    var a, o := SeenAsked(conditions, results, first, p), Open(conditions, results, first, n, p);
    var b, q := SeenAsked(conditions, results, own, p), Open(conditions, results, own, n, p);
    ShownTwice(Asked(conditions, results, first, n, p), o);
    ShownTwice(Asked(conditions, results, own, n, p), q);
    OpenBitsAgree(a, o);
    OpenBitsAgree(b, q);
    SameSlots(state, conditions, results, first, own, p, a);
    SameSlots(state, conditions, results, first, own, p, Both(a, o));
    SameEntriesFlip(state, conditions, results, first, own);
    SameSlots(state, conditions, results, own, first, p, b);
    SameSlots(state, conditions, results, own, first, p, Both(b, q));
    SameWords(a, o, b, q);
  }

  /** An entry that is written with the header fields of one stage matches the keys of another stage as it should if
      and only if both lists make it ask the same of every slot. */
  lemma OtherStage(state: bv32, conditions: seq<PackedCondition>, results: seq<Outcome>, first: seq<HeaderField>,
                   own: seq<HeaderField>)
    requires Writable(conditions, results, first) && Writable(conditions, results, own)
    ensures SameEntries(state, conditions, results, first, own) <==> SameAsked(conditions, results, first, own)
  {
    hide Asked, Open, SameEntries, SeenAsked;
    if SameEntries(state, conditions, results, first, own) {
      forall p | 0 <= p < 3
        ensures Open(conditions, results, first, |conditions|, p) == Open(conditions, results, own, |conditions|, p)
        ensures SeenAsked(conditions, results, first, p) == SeenAsked(conditions, results, own, p) {
        SlotsDecide(state, conditions, results, first, own, p);
      }
    }
    if SameAsked(conditions, results, first, own) {
      AskedDecides(state, conditions, results, first, own);
    }
  }

  lemma AskedDecides(state: bv32, conditions: seq<PackedCondition>, results: seq<Outcome>, first: seq<HeaderField>,
                     own: seq<HeaderField>)
    requires Writable(conditions, results, first) && Writable(conditions, results, own)
    requires SameAsked(conditions, results, first, own)
    ensures SameEntries(state, conditions, results, first, own)
  {
    hide Asked, Open, Shown, HeldOutcomes, ComputedResults, StateBits;
  }

  /** Every field that the row uses is at the same position in both lists. */
  predicate SamePositions(conditions: seq<PackedCondition>, results: seq<Outcome>, first: seq<HeaderField>,
                          own: seq<HeaderField>)
    requires |results| == |conditions|
  {
    forall i :: 0 <= i < |conditions| && Used(conditions, results, i) ==>
      FindPosition(first, conditions[i].field) == FindPosition(own, conditions[i].field)
  }

  lemma {:induction false} PositionsDecide(conditions: seq<PackedCondition>, results: seq<Outcome>,
                                           first: seq<HeaderField>,
                                           own: seq<HeaderField>, n: nat, p: nat)
    requires Writable(conditions, results, first) && Writable(conditions, results, own) && n <= |conditions|
    requires SamePositions(conditions, results, first, own)
    ensures Asked(conditions, results, first, n, p) == Asked(conditions, results, own, n, p)
    ensures Open(conditions, results, first, n, p) == Open(conditions, results, own, n, p)
  {
    hide Both, Common, Encoded, MaskOf, FindPosition;
    if n > 0 {
      PositionsDecide(conditions, results, first, own, n - 1, p);
      assert Used(conditions, results, n - 1) ==>
        (Constrains(conditions, results, first, n - 1, p) <==> Constrains(conditions, results, own, n - 1, p));
    }
  }

  /** The stage's own rows are met when the fields they use are where the first stage has them. */
  lemma SamePositionsSuffice(state: bv32, conditions: seq<PackedCondition>, results: seq<Outcome>,
                             first: seq<HeaderField>,
                             own: seq<HeaderField>)
    requires Writable(conditions, results, first) && Writable(conditions, results, own)
    requires SamePositions(conditions, results, first, own)
    ensures SameEntries(state, conditions, results, first, own)
  {
    hide Asked, Open, SameEntries;
    forall p | 0 <= p < 3
      ensures Asked(conditions, results, first, |conditions|, p) == Asked(conditions, results, own, |conditions|, p)
      ensures Open(conditions, results, first, |conditions|, p) == Open(conditions, results, own, |conditions|, p) {
      PositionsDecide(conditions, results, first, own, |conditions|, p);
    }
    AskedDecides(state, conditions, results, first, own);
  }
}
