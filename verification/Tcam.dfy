/** Rows as ternary memory entries: the value and mask words written for a row, and the keys they match. */
module Tcam {
  import opened Bytes
  import opened Efsm

  // ---------------------------------------------------------------- conditions

  /** A header field that can be matched in the memory: packet bytes, or a field of the event. */
  datatype HeaderField = PktField(offset: nat, length: nat) | EventField(name: string)

  datatype RawOperand = HeaderOperand(field: HeaderField) | IntegerConst(value: bv32) | OtherOperand

  datatype RawCondition = RawCondition(op0: RawOperand, op1: RawOperand, comparison: Comparison)

  /** A condition either matches a header field exactly, in the memory itself, or is computed by one of the
      condition registers. */
  datatype PackedCondition = Exact(field: HeaderField, constant: bv32) | Computed(source: RawCondition)

  function Pack(c: RawCondition): PackedCondition {
    if c.op0.HeaderOperand? && c.op1.IntegerConst? && c.comparison == Equal then Exact(c.op0.field, c.op1.value)
    else Computed(c)
  }

  /** Event fields can only be compared for equality with a constant. */
  predicate Packable(c: RawCondition) {
    c.op0.HeaderOperand? && c.op0.field.EventField? ==> c.op1.IntegerConst? && c.comparison == Equal
  }

  /** Sorts the conditions into exact and computed ones and lists the fields that exact ones look at. */
  method PackConditions(raw: seq<RawCondition>) returns (conditions: seq<PackedCondition>, hfs: seq<HeaderField>)
    requires forall i :: 0 <= i < |raw| ==> Packable(raw[i])
    ensures |conditions| == |raw| && forall i :: 0 <= i < |raw| ==> conditions[i] == Pack(raw[i])
    ensures forall f ::
      f in hfs <==> exists i :: 0 <= i < |conditions| && conditions[i].Exact? && conditions[i].field == f
    ensures forall i, j :: 0 <= i < j < |hfs| ==> hfs[i] != hfs[j]
  {
    conditions, hfs := [], [];
    for i := 0 to |raw|
      invariant |conditions| == i && forall k :: 0 <= k < i ==> conditions[k] == Pack(raw[k])
      invariant forall f :: f in hfs <==> exists k :: 0 <= k < i && conditions[k].Exact? && conditions[k].field == f
      invariant forall k, j :: 0 <= k < j < |hfs| ==> hfs[k] != hfs[j]
    {
      ghost var was := conditions;
      var c := raw[i];
      if c.op0.HeaderOperand? && c.op1.IntegerConst? && c.comparison == Equal {
        conditions := conditions + [Exact(c.op0.field, c.op1.value)];
        if c.op0.field !in hfs {
          hfs := hfs + [c.op0.field];
        }
      } else {
        conditions := conditions + [Computed(c)];
      }
      assert forall k :: 0 <= k < i ==> conditions[k] == was[k];
      assert conditions[i] == Pack(c);
    }
  }

  /** The computed conditions in order: the j-th one is in condition register j. */
  function ComputedOnes(conditions: seq<PackedCondition>): seq<PackedCondition> {
    if conditions == [] then []
    else
      var before, last := ComputedOnes(conditions[..|conditions| - 1]), conditions[|conditions| - 1];
      if last.Computed? then before + [last] else before
  }

  /** Loads the condition registers; fails when there are more computed conditions than registers. */
  method WriteConditions(conditions: seq<PackedCondition>) returns (ok: bool, registers: seq<PackedCondition>)
    ensures ok <==> |ComputedOnes(conditions)| <= 4
    ensures ok ==> registers == ComputedOnes(conditions)
  {
    registers := [];
    for i := 0 to |conditions|
      invariant registers == ComputedOnes(conditions[..i]) && |registers| <= 4
    {
      assert conditions[..i + 1][..i] == conditions[..i];
      if conditions[i].Computed? {
        if |registers| >= 4 {
          ComputedOnesGrow(conditions, i + 1);
          return false, registers;
        }
        registers := registers + [conditions[i]];
      }
    }
    assert conditions[..|conditions|] == conditions;
    ok := true;
  }

  lemma {:induction false} ComputedOnesGrow(conditions: seq<PackedCondition>, n: nat)
    requires n <= |conditions|
    ensures |ComputedOnes(conditions[..n])| <= |ComputedOnes(conditions)|
    decreases |conditions|
  {
    if n == |conditions| {
      assert conditions[..n] == conditions;
    } else {
      assert conditions[..|conditions| - 1][..n] == conditions[..n];
      ComputedOnesGrow(conditions[..|conditions| - 1], n);
    }
  }

  /** The outcomes that a row lists for condition numbers, spread over all conditions; the last one counts. */
  function Listed(listed: seq<(nat, Outcome)>, n: nat): seq<Outcome> {
    if listed == [] then seq(n, _ => DontCare)
    else
      var before, last := Listed(listed[..|listed| - 1], n), listed[|listed| - 1];
      if last.1 == DontCare || last.0 >= |before| then before else before[last.0 := last.1]
  }

  /** The last outcome listed for a condition that is not a don't-care, and a don't-care when there is none. */
  predicate LastFor(listed: seq<(nat, Outcome)>, c: nat, r: Outcome) {
    if r == DontCare then forall i :: 0 <= i < |listed| && listed[i].0 == c ==> listed[i].1 == DontCare
    else
      exists i :: 0 <= i < |listed| && listed[i] == (c, r) &&
        forall k :: i < k < |listed| && listed[k].0 == c ==> listed[k].1 == DontCare
  }

  lemma LastForMore(front: seq<(nat, Outcome)>, last: (nat, Outcome), c: nat, r: Outcome)
    requires LastFor(front, c, r)
    ensures LastFor(front + [last], c, if last.0 == c && last.1 != DontCare then last.1 else r)
  {
    var all := front + [last];
    assert all[|front|] == last;
    if !(last.0 == c && last.1 != DontCare) && r != DontCare {
      var i :| 0 <= i < |front| && front[i] == (c, r) &&
        forall k :: i < k < |front| && front[k].0 == c ==> front[k].1 == DontCare;
      assert all[i] == (c, r);
    }
  }

  /** This is what is left for the condition. */
  lemma {:induction false} LastListed(listed: seq<(nat, Outcome)>, n: nat, c: nat)
    requires c < n
    ensures |Listed(listed, n)| == n && LastFor(listed, c, Listed(listed, n)[c])
  {
    hide LastFor;
    if listed == [] {
      NoneListed(c);
    } else {
      var front := listed[..|listed| - 1];
      LastListed(front, n, c);
      LastForMore(front, listed[|listed| - 1], c, Listed(front, n)[c]);
      assert front + [listed[|listed| - 1]] == listed;
    }
  }

  lemma NoneListed(c: nat)
    ensures LastFor([], c, DontCare)
  {
  }

  method GetConditionsResults(listed: seq<(nat, Outcome)>, n: nat) returns (results: array<Outcome>)
    requires forall i :: 0 <= i < |listed| ==> listed[i].0 < n
    ensures fresh(results) && results[..] == Listed(listed, n)
  {
    results := new Outcome[n](_ => DontCare);
    for i := 0 to |listed|
      invariant results[..] == Listed(listed[..i], n)
    {
      assert listed[..i + 1][..i] == listed[..i];
      if listed[i].1 == IsTrue {
        results[listed[i].0] := IsTrue;
      } else if listed[i].1 == IsFalse {
        results[listed[i].0] := IsFalse;
      }
    }
    assert listed[..|listed|] == listed;
  }

  // ---------------------------------------------------------------- fields

  const PORTS: seq<bv32> := [0x01, 0x04, 0x10, 0x40]

  /** The position of a field in the list of header fields; 0 when it is not there. */
  function FindPosition(hfs: seq<HeaderField>, f: HeaderField): (r: nat)
    ensures f in hfs ==> r < |hfs| && hfs[r] == f
    ensures r == 0 || r < |hfs|
  {
    if f in hfs then IndexOf(hfs, f) else 0
  }

  function IndexOf(hfs: seq<HeaderField>, f: HeaderField): (r: nat)
    requires f in hfs
    ensures r < |hfs| && hfs[r] == f
  {
    if hfs[0] == f then 0 else 1 + IndexOf(hfs[1..], f)
  }

  predicate Supported(f: HeaderField) { f.EventField? || 1 <= f.length <= 4 }

  /** The bits of a 32-bit slot that a field leaves open. */
  function MaskFromField(f: HeaderField): bv32
    requires Supported(f)
  {
    match f
    case EventField(_) => 0xffffff00
    case PktField(_, length) =>
      if length == 4 then 0 else if length == 3 then 0xff000000 else if length == 2 then 0xffff0000 else 0xffffff00
  }

  /** A constant in the byte order of the slots; three-byte constants are not supported and become 0. */
  function Hton(value: bv32, mask: bv32): bv32 {
    if mask == 0xffffff00 then value
    else if mask == 0xffff0000 then Swap2(value)
    else if mask == 0 then Swap4(value)
    else 0
  }

  function Swap2(value: bv32): bv32 { ((value & 0xff) << 8) | ((value & 0xff00) >> 8) }

  function Swap4(value: bv32): bv32 {
    ((value & 0xff) << 24) | ((value & 0xff00) << 8) | ((value & 0xff0000) >> 8) | ((value & 0xff000000) >> 24)
  }

  /** An exact condition that can be encoded: ports are numbered from 1 to 4. */
  predicate Encodable(c: PackedCondition) {
    c.Exact? ==> Supported(c.field) && (c.field.EventField? ==> 1 <= c.constant <= 4)
  }

  /** The 32 bits that an exact condition asks for. */
  function Encoded(c: PackedCondition): bv32
    requires c.Exact? && Encodable(c)
  {
    if c.field.EventField? then
      if c.constant == 1 then PORTS[0]
      else if c.constant == 2 then PORTS[1]
      else if c.constant == 3 then PORTS[2]
      else PORTS[3]
    else Hton(c.constant, MaskFromField(c.field))
  }

  function MaskOf(c: PackedCondition): bv32
    requires c.Exact? && Encodable(c)
  {
    MaskFromField(c.field)
  }

  // ---------------------------------------------------------------- entries

  /** What is looked up: the state of the flow, the condition registers and up to three header fields. */
  datatype RuntimeKey = RuntimeKey(state: bv32, conditions: seq<bool>, slots: seq<bv32>) {
    predicate Valid() { state <= 0xff && |conditions| == 4 && |slots| == 3 }
  }

  function Bit(b: bool, at: bv32): bv32 { if b then at else 0 }

  /** One bit for each of the condition registers. */
  function Flagged(b0: bool, b1: bool, b2: bool, b3: bool): bv32 {
    Bit(b0, 0x100) | Bit(b1, 0x200) | Bit(b2, 0x400) | Bit(b3, 0x800)
  }

  function ConditionBits(c: seq<bool>): bv32
    requires |c| == 4
  {
    Flagged(c[0], c[1], c[2], c[3])
  }

  /** The words of a key: the state in bits 0 to 7, conditions from bit 8 on, then the slots from bit 24 on. */
  function Words(k: RuntimeKey): (r: seq<bv32>)
    requires k.Valid()
    ensures |r| == 4
  {
    [FirstWord(k.state, ConditionBits(k.conditions), k.slots[0]),
     NextWord(k.slots[0], k.slots[1]), NextWord(k.slots[1], k.slots[2]), Down(k.slots[2])]
  }

  function FirstWord(state: bv32, conditions: bv32, slot: bv32): bv32 { state | conditions | (slot << 24) }

  function NextWord(before: bv32, slot: bv32): bv32 { (before >> 8) | (slot << 24) }

  /** Where a key has its parts: bits 0 to 7 of the first word are the state, bit 8 + j is set when the condition in
      register j is true, bits 12 to 23 are free, and every slot begins in the top byte of a word and goes on in the
      next one. */
  lemma KeyLayout(k: RuntimeKey)
    requires k.Valid()
    ensures StateIn(Words(k)[0]) == k.state && FreeIn(Words(k)[0]) == 0
    ensures forall j :: 0 <= j < 4 ==> FlagIn(Words(k)[0], j) == k.conditions[j]
    ensures forall p :: 0 <= p < 3 ==> SlotIn(Words(k)[p], Words(k)[p + 1]) == k.slots[p]
  {
    hide FirstWord, NextWord, Down, Flagged, StateIn, FreeIn, FlagIn, SlotIn;
    var c, s := k.conditions, k.slots;
    StatePlace(k.state, c[0], c[1], c[2], c[3], s[0]);
    FlagPlaces(k.state, c[0], c[1], c[2], c[3], s[0]);
    FirstSlotPlace(k.state, c[0], c[1], c[2], c[3], s[0], s[1]);
    SlotPlace(s[0], s[1], s[2]);
    LastSlotPlace(s[1], s[2]);
  }

  function StateIn(w: bv32): bv32 { w & 0xff }

  function FreeIn(w: bv32): bv32 { (w >> 12) & 0xfff }

  predicate FlagIn(w: bv32, j: nat)
    requires j < 4
  {
    (w >> (8 + j)) & 1 == 1
  }

  function SlotIn(a: bv32, b: bv32): bv32 { (a >> 24) | (b << 8) }

  lemma StatePlace(state: bv32, c0: bool, c1: bool, c2: bool, c3: bool, slot: bv32)
    requires state <= 0xff
    ensures StateIn(FirstWord(state, Flagged(c0, c1, c2, c3), slot)) == state
    ensures FreeIn(FirstWord(state, Flagged(c0, c1, c2, c3), slot)) == 0
  {
  }

  lemma FlagPlaces(state: bv32, c0: bool, c1: bool, c2: bool, c3: bool, slot: bv32)
    requires state <= 0xff
    ensures FlagIn(FirstWord(state, Flagged(c0, c1, c2, c3), slot), 0) == c0
    ensures FlagIn(FirstWord(state, Flagged(c0, c1, c2, c3), slot), 1) == c1
    ensures FlagIn(FirstWord(state, Flagged(c0, c1, c2, c3), slot), 2) == c2
    ensures FlagIn(FirstWord(state, Flagged(c0, c1, c2, c3), slot), 3) == c3
  {
  }

  lemma FirstSlotPlace(state: bv32, c0: bool, c1: bool, c2: bool, c3: bool, slot: bv32, next: bv32)
    requires state <= 0xff
    ensures SlotIn(FirstWord(state, Flagged(c0, c1, c2, c3), slot), NextWord(slot, next)) == slot
  {
  }

  lemma SlotPlace(before: bv32, slot: bv32, next: bv32)
    ensures SlotIn(NextWord(before, slot), NextWord(slot, next)) == slot
  {
  }

  lemma LastSlotPlace(before: bv32, slot: bv32)
    ensures SlotIn(NextWord(before, slot), Down(slot)) == slot
  {
  }

  /** The part of a slot in the top byte of a word, and the rest of it. */
  function Up(slot: bv32): bv32 { slot << 24 }

  function Down(slot: bv32): bv32 { slot >> 8 }

  /** A word agrees with a value outside the masked bits. */
  predicate Agrees(word: bv32, value: bv32, mask: bv32) { Shown(word, mask) == Shown(value, mask) }

  function Shown(word: bv32, mask: bv32): bv32 { word & !mask }

  predicate Matches(value: seq<bv32>, mask: seq<bv32>, words: seq<bv32>)
    requires |value| == 4 && |mask| >= 4 && |words| == 4
  {
    Agrees(words[0], value[0], mask[0]) && Agrees(words[1], value[1], mask[1]) &&
    Agrees(words[2], value[2], mask[2]) && Agrees(words[3], value[3], mask[3])
  }

  /** The slot `p` of the words. */
  function Slot(w: seq<bv32>, p: nat): bv32
    requires |w| >= 4 && p < 3
  {
    Join(w[p], w[p + 1])
  }

  function Both(a: bv32, b: bv32): bv32 { a | b }

  function Common(a: bv32, b: bv32): bv32 { a & b }

  /** The bits of a word below the first slot. */
  function Low(a: bv32): bv32 { a & 0xffffff }

  function Top(a: bv32): bv32 { a & 0xff000000 }

  /** The slot that starts in the top byte of one word and goes on in the next. */
  function Join(a: bv32, b: bv32): bv32 { (a >> 24) | (b << 8) }

  // ---------------------------------------------------------------- what an entry asks for

  /** Whether the condition `i` constrains slot `p`. */
  predicate Constrains(conditions: seq<PackedCondition>, results: seq<Outcome>, hfs: seq<HeaderField>, i: nat, p: nat)
    requires |results| == |conditions| && i < |results|
  {
    conditions[i].Exact? && results[i] != DontCare && FindPosition(hfs, conditions[i].field) == p
  }

  /** All that the first `n` conditions ask of slot `p`, one on top of the other. */
  function Asked(conditions: seq<PackedCondition>, results: seq<Outcome>, hfs: seq<HeaderField>, n: nat, p: nat): bv32
    requires |results| == |conditions| && n <= |results|
    requires forall i :: 0 <= i < |conditions| ==> Encodable(conditions[i])
  {
    if n == 0 then 0
    else
      var before := Asked(conditions, results, hfs, n - 1, p);
      if Constrains(conditions, results, hfs, n - 1, p) then Both(before, Encoded(conditions[n - 1])) else before
  }

  /** The bits of slot `p` that the first `n` conditions leave open. */
  function Open(conditions: seq<PackedCondition>, results: seq<Outcome>, hfs: seq<HeaderField>, n: nat, p: nat): bv32
    requires |results| == |conditions| && n <= |results|
    requires forall i :: 0 <= i < |conditions| ==> Encodable(conditions[i])
  {
    if n == 0 then 0xffffffff
    else
      var before := Open(conditions, results, hfs, n - 1, p);
      if Constrains(conditions, results, hfs, n - 1, p) then Common(before, MaskOf(conditions[n - 1])) else before
  }

  /** The results of the computed conditions among the first `n`, in the order of their registers. */
  function ComputedResults(conditions: seq<PackedCondition>, results: seq<Outcome>, n: nat): (r: seq<Outcome>)
    requires |results| == |conditions| && n <= |results|
  {
    if n == 0 then []
    else
      var before := ComputedResults(conditions, results, n - 1);
      if conditions[n - 1].Computed? then before + [results[n - 1]] else before
  }

  function At(rs: seq<Outcome>, j: nat): Outcome { if j < |rs| then rs[j] else DontCare }

  function TrueBits(rs: seq<Outcome>): bv32 {
    Flagged(At(rs, 0) == IsTrue, At(rs, 1) == IsTrue, At(rs, 2) == IsTrue, At(rs, 3) == IsTrue)
  }

  /** What the computed conditions leave open in the bits below the slots. */
  function OpenBits(rs: seq<Outcome>): bv32 {
    Unless(CareBits(rs))
  }

  function Unless(f: bv32): bv32 { 0xffffff & !f }

  function CareBits(rs: seq<Outcome>): bv32 {
    Flagged(At(rs, 0) != DontCare, At(rs, 1) != DontCare, At(rs, 2) != DontCare, At(rs, 3) != DontCare)
  }

  /** The shape of the words after `n` conditions. */
  ghost predicate Shaped(value: seq<bv32>, mask: seq<bv32>, conditions: seq<PackedCondition>, results: seq<Outcome>,
                         hfs: seq<HeaderField>, n: nat)
    requires |results| == |conditions| && n <= |results|
    requires forall i :: 0 <= i < |conditions| ==> Encodable(conditions[i])
  {
    |value| == 4 && |mask| == 8 &&
    (forall p :: 0 <= p < 3 ==> Slot(value, p) == Asked(conditions, results, hfs, n, p)) &&
    (forall p :: 0 <= p < 3 ==> Slot(mask, p) == Open(conditions, results, hfs, n, p)) &&
    Low(value[0]) == TrueBits(ComputedResults(conditions, results, n)) &&
    Low(mask[0]) == OpenBits(ComputedResults(conditions, results, n)) &&
    Top(mask[3]) == 0xff000000
  }

  // ---------------------------------------------------------------- writing an entry

  function OrTop(a: bv32, h: bv32): bv32 { a | ((h & 0xff) << 24) }

  function OrRest(b: bv32, h: bv32): bv32 { b | (h >> 8) }

  function AndTop(a: bv32, m: bv32): bv32 { a & (0x00ffffff | (m << 24)) }

  function AndRest(b: bv32, m: bv32): bv32 { b & (0xff000000 | (m >> 8)) }

  lemma OrJoin(a: bv32, b: bv32, h: bv32)
    ensures Join(OrTop(a, h), OrRest(b, h)) == Both(Join(a, b), h)
  {
  }

  lemma OrBefore(a: bv32, c: bv32, h: bv32)
    ensures Join(c, OrTop(a, h)) == Join(c, a)
  {
  }

  lemma OrAfter(b: bv32, c: bv32, h: bv32)
    ensures Join(OrRest(b, h), c) == Join(b, c)
  {
  }

  lemma OrLow(a: bv32, h: bv32)
    ensures Low(OrTop(a, h)) == Low(a)
  {
  }

  /** Adding to a slot leaves the neighbouring slots, the conditions and the state alone. */
  lemma OrSlot(a: bv32, b: bv32, c: bv32, h: bv32)
    ensures Join(OrTop(a, h), OrRest(b, h)) == Both(Join(a, b), h)
    ensures Join(c, OrTop(a, h)) == Join(c, a) && Join(OrRest(b, h), c) == Join(b, c)
    ensures Low(OrTop(a, h)) == Low(a)
  {
    hide *;
    OrJoin(a, b, h);
    OrBefore(a, c, h);
    OrAfter(b, c, h);
    OrLow(a, h);
  }

  lemma AndJoin(a: bv32, b: bv32, m: bv32)
    ensures Join(AndTop(a, m), AndRest(b, m)) == Common(Join(a, b), m)
  {
  }

  lemma AndBefore(a: bv32, c: bv32, m: bv32)
    ensures Join(c, AndTop(a, m)) == Join(c, a)
  {
  }

  lemma AndAfter(b: bv32, c: bv32, m: bv32)
    ensures Join(AndRest(b, m), c) == Join(b, c)
  {
  }

  lemma AndLow(a: bv32, b: bv32, m: bv32)
    ensures Low(AndTop(a, m)) == Low(a) && Top(AndRest(b, m)) == Top(b)
  {
  }

  lemma AndSlot(a: bv32, b: bv32, c: bv32, m: bv32)
    ensures Join(AndTop(a, m), AndRest(b, m)) == Common(Join(a, b), m)
    ensures Join(c, AndTop(a, m)) == Join(c, a) && Join(AndRest(b, m), c) == Join(b, c)
    ensures Low(AndTop(a, m)) == Low(a) && Top(AndRest(b, m)) == Top(b)
  {
    hide *;
    AndJoin(a, b, m);
    AndBefore(a, c, m);
    AndAfter(b, c, m);
    AndLow(a, b, m);
  }

  /** Adds what an exact condition asks for to its slot, which spans two words. */
  method WriteExact(value: array<bv32>, mask: array<bv32>, pos: nat, h: bv32, m: bv32)
    requires value.Length == 4 && mask.Length == 8 && pos < 3
    modifies value, mask
    ensures value[..] == AddedValue(old(value[..]), pos, h) && mask[..] == AddedMask(old(mask[..]), pos, m)
  {
    hide OrTop, OrRest, AndTop, AndRest;
    value[pos] := OrTop(value[pos], h);
    value[pos + 1] := OrRest(value[pos + 1], h);
    mask[pos] := AndTop(mask[pos], m);
    mask[pos + 1] := AndRest(mask[pos + 1], m);
  }

  function AddedValue(w: seq<bv32>, pos: nat, h: bv32): (r: seq<bv32>)
    requires |w| == 4 && pos < 3
    ensures |r| == 4
  {
    w[pos := OrTop(w[pos], h)][pos + 1 := OrRest(w[pos + 1], h)]
  }

  function AddedMask(w: seq<bv32>, pos: nat, m: bv32): (r: seq<bv32>)
    requires |w| == 8 && pos < 3
    ensures |r| == 8
  {
    w[pos := AndTop(w[pos], m)][pos + 1 := AndRest(w[pos + 1], m)]
  }

  lemma AddedSlots(w: seq<bv32>, pos: nat, h: bv32)
    requires |w| == 4 && pos < 3
    ensures forall p :: 0 <= p < 3 ==>
      Slot(AddedValue(w, pos, h), p) == if p == pos then Both(Slot(w, p), h) else Slot(w, p)
    ensures Low(AddedValue(w, pos, h)[0]) == Low(w[0])
  {
    hide Join, OrTop, OrRest, Both, Low;
    OrSlot(w[pos], w[pos + 1], if pos > 0 then w[pos - 1] else 0, h);
    OrSlot(w[pos], w[pos + 1], if pos < 2 then w[pos + 2] else 0, h);
  }

  lemma AddedMasks(w: seq<bv32>, pos: nat, m: bv32)
    requires |w| == 8 && pos < 3
    ensures forall p :: 0 <= p < 3 ==>
      Slot(AddedMask(w, pos, m), p) == if p == pos then Common(Slot(w, p), m) else Slot(w, p)
    ensures Low(AddedMask(w, pos, m)[0]) == Low(w[0]) && Top(AddedMask(w, pos, m)[3]) == Top(w[3])
  {
    hide Join, AndTop, AndRest, Common, Low, Top;
    AndSlot(w[pos], w[pos + 1], if pos > 0 then w[pos - 1] else 0, m);
    AndSlot(w[pos], w[pos + 1], if pos < 2 then w[pos + 2] else 0, m);
  }

  /** The bit of condition register `j`. */
  function Flag(j: nat): bv32
    requires j < 4
  {
    (1 as bv32) << (j + 8)
  }

  function Invert(a: bv32): bv32 { !a }

  lemma Flags()
    ensures Flag(0) == 0x100 && Flag(1) == 0x200 && Flag(2) == 0x400 && Flag(3) == 0x800
  {
  }

  /** Setting or opening the bit of a condition leaves the first slot alone. */
  lemma FlagLow(a: bv32, c: bv32, j: nat)
    requires j < 4
    ensures Low(Both(a, Flag(j))) == Both(Low(a), Flag(j)) && Join(Both(a, Flag(j)), c) == Join(a, c)
    ensures Low(Common(a, Invert(Flag(j)))) == Common(Low(a), Invert(Flag(j)))
    ensures Join(Common(a, Invert(Flag(j))), c) == Join(a, c)
  {
    hide Low, Both, Join, Common, Invert, Flag;
    Flags();
    var f := Flag(j);
    assert Low(f) == f && f == Flag(j) by { LowFlags(); }
    BelowSlot(a, c, f);
  }

  lemma LowFlags()
    ensures Low(0x100) == 0x100 && Low(0x200) == 0x200 && Low(0x400) == 0x400 && Low(0x800) == 0x800
  {
  }

  lemma BelowSlot(a: bv32, c: bv32, f: bv32)
    ensures Low(Both(a, Low(f))) == Both(Low(a), Low(f)) && Join(Both(a, Low(f)), c) == Join(a, c)
    ensures Low(Common(a, Invert(Low(f)))) == Common(Low(a), Invert(Low(f)))
    ensures Join(Common(a, Invert(Low(f))), c) == Join(a, c)
  {
    hide *;
    LowOfBoth(a, f);
    LowOfCommon(a, f);
    JoinAfterBoth(a, c, f);
    JoinAfterCommon(a, c, f);
  }

  lemma LowOfBoth(a: bv32, f: bv32)
    ensures Low(Both(a, Low(f))) == Both(Low(a), Low(f))
  {
  }

  lemma LowOfCommon(a: bv32, f: bv32)
    ensures Low(Common(a, Invert(Low(f)))) == Common(Low(a), Invert(Low(f)))
  {
  }

  lemma JoinAfterBoth(a: bv32, c: bv32, f: bv32)
    ensures Join(Both(a, Low(f)), c) == Join(a, c)
  {
  }

  lemma JoinAfterCommon(a: bv32, c: bv32, f: bv32)
    ensures Join(Common(a, Invert(Low(f))), c) == Join(a, c)
  {
  }

  lemma FlagsBoth(b0: bool, b1: bool, b2: bool, b3: bool)
    ensures Both(Flagged(false, b1, b2, b3), 0x100) == Flagged(true, b1, b2, b3)
    ensures Both(Flagged(b0, false, b2, b3), 0x200) == Flagged(b0, true, b2, b3)
    ensures Both(Flagged(b0, b1, false, b3), 0x400) == Flagged(b0, b1, true, b3)
    ensures Both(Flagged(b0, b1, b2, false), 0x800) == Flagged(b0, b1, b2, true)
  {
  }

  lemma UnlessBoth(f: bv32, g: bv32)
    ensures Unless(Both(f, g)) == Common(Unless(f), Invert(g))
  {
  }

  /** One more result adds one bit. */
  lemma MoreBits(rs: seq<Outcome>, r: Outcome)
    requires |rs| < 4
    ensures TrueBits(rs + [r]) == if r == IsTrue then Both(TrueBits(rs), Flag(|rs|)) else TrueBits(rs)
    ensures OpenBits(rs + [r]) == if r != DontCare then Common(OpenBits(rs), Invert(Flag(|rs|))) else OpenBits(rs)
  {
    hide Flag, Flagged, Both, Unless, Invert, Common;
    Flags();
    var t := rs + [r];
    FlagsBoth(At(rs, 0) == IsTrue, At(rs, 1) == IsTrue, At(rs, 2) == IsTrue, At(rs, 3) == IsTrue);
    FlagsBoth(At(rs, 0) != DontCare, At(rs, 1) != DontCare, At(rs, 2) != DontCare, At(rs, 3) != DontCare);
    UnlessBoth(CareBits(rs), Flag(|rs|));
    assert At(t, 0) == (if |rs| == 0 then r else At(rs, 0)) && At(t, 1) == (if |rs| == 1 then r else At(rs, 1));
    assert At(t, 2) == (if |rs| == 2 then r else At(rs, 2)) && At(t, 3) == (if |rs| == 3 then r else At(rs, 3));
  }

  // ---------------------------------------------------------------- the whole entry

  /** The results of the computed conditions, one for each loaded register. */
  lemma {:induction false} RegistersInOrder(conditions: seq<PackedCondition>, results: seq<Outcome>, n: nat)
    requires |results| == |conditions| && n <= |results|
    ensures |ComputedResults(conditions, results, n)| == |ComputedOnes(conditions[..n])| <= |ComputedOnes(conditions)|
  {
    ComputedOnesGrow(conditions, n);
    if n > 0 {
      RegistersInOrder(conditions, results, n - 1);
      assert conditions[..n][..n - 1] == conditions[..n - 1];
    }
  }

  /** What an entry may be written for. */
  predicate Writable(conditions: seq<PackedCondition>, results: seq<Outcome>, hfs: seq<HeaderField>) {
    |results| == |conditions| && |hfs| <= 3 && |ComputedOnes(conditions)| <= 4 &&
    forall i :: 0 <= i < |conditions| ==> Encodable(conditions[i])
  }

  /** An exact condition that the row does not ignore. */
  method AddExact(value: array<bv32>, mask: array<bv32>, ghost conditions: seq<PackedCondition>,
                  ghost results: seq<Outcome>,
                  hfs: seq<HeaderField>, ghost i: nat, cond: PackedCondition)
    requires value.Length == 4 && mask.Length == 8 && Writable(conditions, results, hfs) && i < |conditions|
    requires Shaped(value[..], mask[..], conditions, results, hfs, i)
    requires cond == conditions[i] && cond.Exact? && results[i] != DontCare
    modifies value, mask
    ensures Shaped(value[..], mask[..], conditions, results, hfs, i + 1)
  {
    hide Low, Top, Join, Both, Common, Encoded, MaskOf, AddedValue, AddedMask, TrueBits, OpenBits;
    var pos := FindPosition(hfs, cond.field);
    AddedSlots(value[..], pos, Encoded(cond));
    AddedMasks(mask[..], pos, MaskOf(cond));
    WriteExact(value, mask, pos, Encoded(cond), MaskOf(cond));
  }

  /** A computed condition that the row does not ignore. */
  method AddComputed(value: array<bv32>, mask: array<bv32>, conditions: seq<PackedCondition>, results: seq<Outcome>,
                     hfs: seq<HeaderField>, i: nat, j: nat)
    requires value.Length == 4 && mask.Length == 8 && Writable(conditions, results, hfs) && i < |conditions|
    requires Shaped(value[..], mask[..], conditions, results, hfs, i)
    requires conditions[i].Computed? && results[i] != DontCare && j == |ComputedResults(conditions, results, i)|
    modifies value, mask
    ensures Shaped(value[..], mask[..], conditions, results, hfs, i + 1)
  {
    hide Both, Common, Invert, Flag, Shaped, ComputedResults, Asked, Open;
    ComputedNext(conditions, results, hfs, i);
    ghost var v, m := value[..], mask[..];
    if results[i] == IsTrue {
      value[0] := Both(value[0], Flag(j));
    }
    mask[0] := Common(mask[0], Invert(Flag(j)));
    assert value[..] == if results[i] == IsTrue then v[0 := Both(v[0], Flag(j))] else v;
    assert mask[..] == m[0 := Common(m[0], Invert(Flag(j)))];
    ComputedAdded(v, m, conditions, results, hfs, i, j);
  }

  /** A computed condition asks nothing of the slots and has the next register. */
  lemma ComputedNext(conditions: seq<PackedCondition>, results: seq<Outcome>, hfs: seq<HeaderField>, i: nat)
    requires Writable(conditions, results, hfs) && i < |conditions|
    requires conditions[i].Computed? && results[i] != DontCare
    ensures |ComputedResults(conditions, results, i)| < 4
    ensures ComputedResults(conditions, results, i + 1) == ComputedResults(conditions, results, i) + [results[i]]
    ensures forall p :: Asked(conditions, results, hfs, i + 1, p) == Asked(conditions, results, hfs, i, p)
    ensures forall p :: Open(conditions, results, hfs, i + 1, p) == Open(conditions, results, hfs, i, p)
  {
    RegistersInOrder(conditions, results, i + 1);
  }

  /** One more computed condition has its bit below the slots, which stay. */
  lemma ComputedAdded(value: seq<bv32>, mask: seq<bv32>, conditions: seq<PackedCondition>, results: seq<Outcome>,
                      hfs: seq<HeaderField>, i: nat, j: nat)
    requires |value| == 4 && |mask| == 8 && Writable(conditions, results, hfs) && i < |conditions|
    requires Shaped(value, mask, conditions, results, hfs, i)
    requires conditions[i].Computed? && results[i] != DontCare && j == |ComputedResults(conditions, results, i)| < 4
    ensures var v := if results[i] == IsTrue then value[0 := Both(value[0], Flag(j))] else value;
      Shaped(v, mask[0 := Common(mask[0], Invert(Flag(j)))], conditions, results, hfs, i + 1)
  {
    hide Low, Top, Join, Both, Common, Invert, Flag, TrueBits, OpenBits, Asked, Open, ComputedResults, Encoded;
    ComputedNext(conditions, results, hfs, i);
    MoreBits(ComputedResults(conditions, results, i), results[i]);
    FlagLow(value[0], value[1], j);
    FlagLow(mask[0], mask[1], j);
    var v := if results[i] == IsTrue then value[0 := Both(value[0], Flag(j))] else value;
    assert forall p :: 0 <= p < 3 ==> Slot(v, p) == Slot(value, p);
    var m := mask[0 := Common(mask[0], Invert(Flag(j)))];
    assert forall p :: 0 <= p < 3 ==> Slot(m, p) == Slot(mask, p);
  }

  // ---------------------------------------------------------------- what an entry matches

  function StateBits(state: bv32): (r: bv32)
    ensures r <= 0xff
  {
    state & 0xff
  }

  /** A state that is a byte is matched as it is; of any other one the low byte is matched. */
  lemma StateByte(state: bv32, other: bv32)
    ensures state <= 0xff ==> StateBits(state) == state
    ensures StateBits(state + 0x100 * other) == StateBits(state)
  {
  }

  /** A key has what an entry asks for: its state or any, the outcome of every computed condition that the row
      does not ignore, and in each slot the constants of the exact ones. */
  ghost predicate Wanted(state: bv32, conditions: seq<PackedCondition>, results: seq<Outcome>, hfs: seq<HeaderField>,
                         k: RuntimeKey)
    requires Writable(conditions, results, hfs) && k.Valid()
  {
    (state == 255 || k.state == StateBits(state)) &&
    HeldOutcomes(ComputedResults(conditions, results, |conditions|), k.conditions) &&
    forall p :: 0 <= p < 3 ==>
      Agrees(k.slots[p], Asked(conditions, results, hfs, |conditions|, p),
        Open(conditions, results, hfs, |conditions|, p))
  }

  predicate HeldOutcomes(rs: seq<Outcome>, held: seq<bool>)
    requires |held| == 4
  {
    forall j :: 0 <= j < 4 ==> Held(rs, held, j)
  }

  lemma Parts(x: bv32, y: bv32)
    ensures x == y <==> Low(x) == Low(y) && Top(x) == Top(y)
  {
  }

  lemma ShownParts(w: bv32, m: bv32)
    ensures Low(Shown(w, m)) == Shown(Low(w), Low(m)) && Top(Shown(w, m)) == Shown(Top(w), Top(m))
  {
  }

  lemma NextParts(e: bv32, f: bv32)
    ensures Low(NextWord(e, f)) == Low(Down(e)) && Top(NextWord(e, f)) == Top(Up(f))
  {
  }

  lemma FirstParts(s: bv32, c: bv32, f: bv32)
    ensures Low(FirstWord(Low(s), Low(c), f)) == Both(Low(s), Low(c)) && Top(FirstWord(Low(s), Low(c), f)) == Top(Up(f))
  {
  }

  lemma LastParts(e: bv32, v: bv32)
    ensures Shown(Top(Down(e)), 0xff000000) == Shown(Top(v), 0xff000000)
  {
  }

  lemma JoinShown(a: bv32, b: bv32, ma: bv32, mb: bv32)
    ensures Shown(Join(a, b), Join(ma, mb)) == Join(Shown(a, ma), Shown(b, mb))
  {
  }

  lemma JoinParts(a: bv32, b: bv32)
    ensures Up(Join(a, b)) == Top(a) && Down(Join(a, b)) == Low(b)
  {
  }

  lemma JoinOfParts(a: bv32, b: bv32)
    ensures Join(a, b) == Join(Top(a), Low(b))
  {
  }

  lemma SlotIsJoin(f: bv32)
    ensures f == Join(Up(f), Down(f))
  {
  }

  /** A slot agrees when its two pieces do. */
  lemma SlotAgrees(f: bv32, a: bv32, b: bv32, ma: bv32, mb: bv32)
    ensures Agrees(f, Join(a, b), Join(ma, mb))
       <==> Top(Shown(Up(f), ma)) == Top(Shown(a, ma)) && Low(Shown(Down(f), mb)) == Low(Shown(b, mb))
  {
    hide Join, Shown, Low, Top, Up, Down;
    SlotIsJoin(f);
    JoinShown(a, b, ma, mb);
    JoinShown(Up(f), Down(f), ma, mb);
    JoinParts(Shown(a, ma), Shown(b, mb));
    JoinParts(Shown(Up(f), ma), Shown(Down(f), mb));
    JoinOfParts(Shown(a, ma), Shown(b, mb));
    JoinOfParts(Shown(Up(f), ma), Shown(Down(f), mb));
  }

  /** A word agrees when its two pieces do. */
  lemma WordAgrees(w: bv32, v: bv32, m: bv32, low: bv32, top: bv32)
    requires Low(w) == Low(low) && Top(w) == Top(top)
    ensures Agrees(w, v, m)
       <==> Low(Shown(low, m)) == Low(Shown(v, m)) && Top(Shown(top, m)) == Top(Shown(v, m))
  {
    hide Shown, Low, Top;
    Parts(Shown(w, m), Shown(v, m));
    ShownParts(w, m);
    ShownParts(low, m);
    ShownParts(top, m);
  }

  lemma ShownBoth(a: bv32, b: bv32, m: bv32)
    ensures Shown(Both(a, b), m) == Both(Shown(a, m), Shown(b, m))
  {
  }

  lemma ShownState(s: bv32, m: bv32)
    requires s <= 0xff
    ensures Shown(s, Common(m, 0xffffff00)) == s && Low(s) == s
  {
  }

  /** Masking keeps the flags that are cared for, whether or not the state is looked at too. */
  lemma ShownFlags(c0: bool, c1: bool, c2: bool, c3: bool, d0: bool, d1: bool, d2: bool, d3: bool,
                   x0: bool, x1: bool, x2: bool, x3: bool)
    requires x0 == (c0 && d0) && x1 == (c1 && d1) && x2 == (c2 && d2) && x3 == (c3 && d3)
    ensures Shown(Flagged(c0, c1, c2, c3), Unless(Flagged(d0, d1, d2, d3))) == Flagged(x0, x1, x2, x3)
    ensures Shown(Flagged(c0, c1, c2, c3), Common(Unless(Flagged(d0, d1, d2, d3)), 0xffffff00))
         == Flagged(x0, x1, x2, x3)
  {
  }

  lemma ShownStateUnless(s: bv32, d0: bool, d1: bool, d2: bool, d3: bool)
    requires s <= 0xff
    ensures Shown(s, Unless(Flagged(d0, d1, d2, d3))) == 0
  {
  }

  lemma Extract(s: bv32, c0: bool, c1: bool, c2: bool, c3: bool)
    requires s <= 0xff
    ensures Both(s, Flagged(c0, c1, c2, c3)) & 0xff == s
    ensures Both(s, Flagged(c0, c1, c2, c3)) & 0x100 == Bit(c0, 0x100)
    ensures Both(s, Flagged(c0, c1, c2, c3)) & 0x200 == Bit(c1, 0x200)
    ensures Both(s, Flagged(c0, c1, c2, c3)) & 0x400 == Bit(c2, 0x400)
    ensures Both(s, Flagged(c0, c1, c2, c3)) & 0x800 == Bit(c3, 0x800)
  {
  }

  /** The state and the flags can be told from their union. */
  lemma FlagsAreApart(s: bv32, w: bv32, c0: bool, c1: bool, c2: bool, c3: bool, t0: bool, t1: bool, t2: bool, t3: bool)
    requires s <= 0xff && w <= 0xff && Both(s, Flagged(c0, c1, c2, c3)) == Both(w, Flagged(t0, t1, t2, t3))
    ensures s == w && c0 == t0 && c1 == t1 && c2 == t2 && c3 == t3
  {
    hide Both, Flagged;
    Extract(s, c0, c1, c2, c3);
    Extract(w, t0, t1, t2, t3);
  }

  lemma BothSides(a: bv32, b: bv32)
    ensures Both(a, b) == Both(b, a) && Both(0, a) == a
  {
  }

  /** State and flags are the same exactly when their union is. */
  lemma FlagsDecide(s: bv32, w: bv32, c0: bool, c1: bool, c2: bool, c3: bool, t0: bool, t1: bool, t2: bool, t3: bool)
    requires s <= 0xff && w <= 0xff
    ensures Both(s, Flagged(c0, c1, c2, c3)) == Both(w, Flagged(t0, t1, t2, t3))
       <==> s == w && c0 == t0 && c1 == t1 && c2 == t2 && c3 == t3
  {
    hide Both, Flagged;
    if Both(s, Flagged(c0, c1, c2, c3)) == Both(w, Flagged(t0, t1, t2, t3)) {
      FlagsAreApart(s, w, c0, c1, c2, c3, t0, t1, t2, t3);
    }
  }

  /** Looking at the state `s` and at the conditions `c` where `d` cares, which leaves the conditions `x`. */
  lemma ShownTogether(s: bv32, c0: bool, c1: bool, c2: bool, c3: bool, d0: bool, d1: bool, d2: bool, d3: bool,
                      x0: bool, x1: bool, x2: bool, x3: bool)
    requires s <= 0xff && x0 == (c0 && d0) && x1 == (c1 && d1) && x2 == (c2 && d2) && x3 == (c3 && d3)
    ensures Shown(Both(s, Flagged(c0, c1, c2, c3)), Common(Unless(Flagged(d0, d1, d2, d3)), 0xffffff00))
         == Both(s, Flagged(x0, x1, x2, x3))
    ensures Shown(Both(s, Flagged(c0, c1, c2, c3)), Unless(Flagged(d0, d1, d2, d3))) == Flagged(x0, x1, x2, x3)
  {
    hide Flagged, Shown, Both, Common, Unless, Low;
    var u := Unless(Flagged(d0, d1, d2, d3));
    ShownFlags(c0, c1, c2, c3, d0, d1, d2, d3, x0, x1, x2, x3);
    ShownState(s, u);
    ShownStateUnless(s, d0, d1, d2, d3);
    ShownBoth(s, Flagged(c0, c1, c2, c3), u);
    ShownBoth(s, Flagged(c0, c1, c2, c3), Common(u, 0xffffff00));
    BothSides(Flagged(x0, x1, x2, x3), 0);
  }

  /** The state and the conditions look as wanted, `w` and `t`, exactly when they are so where `d` cares. */
  lemma StateAndFlags(s: bv32, w: bv32, c0: bool, c1: bool, c2: bool, c3: bool, t0: bool, t1: bool, t2: bool, t3: bool,
                      d0: bool, d1: bool, d2: bool, d3: bool)
    requires s <= 0xff && w <= 0xff && (t0 ==> d0) && (t1 ==> d1) && (t2 ==> d2) && (t3 ==> d3)
    ensures var m := Common(Unless(Flagged(d0, d1, d2, d3)), 0xffffff00);
      Shown(Both(s, Flagged(c0, c1, c2, c3)), m) == Shown(Both(Flagged(t0, t1, t2, t3), w), m)
      <==> s == w && (c0 && d0) == t0 && (c1 && d1) == t1 && (c2 && d2) == t2 && (c3 && d3) == t3
  {
    hide Flagged, Shown, Both, Common, Unless;
    var x0, x1, x2, x3 := c0 && d0, c1 && d1, c2 && d2, c3 && d3;
    ShownTogether(s, c0, c1, c2, c3, d0, d1, d2, d3, x0, x1, x2, x3);
    ShownTogether(w, t0, t1, t2, t3, d0, d1, d2, d3, t0, t1, t2, t3);
    BothSides(Flagged(t0, t1, t2, t3), w);
    FlagsDecide(s, w, x0, x1, x2, x3, t0, t1, t2, t3);
  }

  /** The same when the state is not looked at. */
  lemma OnlyFlags(s: bv32, c0: bool, c1: bool, c2: bool, c3: bool, t0: bool, t1: bool, t2: bool, t3: bool,
                  d0: bool, d1: bool, d2: bool, d3: bool)
    requires s <= 0xff && (t0 ==> d0) && (t1 ==> d1) && (t2 ==> d2) && (t3 ==> d3)
    ensures var m := Unless(Flagged(d0, d1, d2, d3));
      Shown(Both(s, Flagged(c0, c1, c2, c3)), m) == Shown(Flagged(t0, t1, t2, t3), m)
      <==> (c0 && d0) == t0 && (c1 && d1) == t1 && (c2 && d2) == t2 && (c3 && d3) == t3
  {
    hide Flagged, Shown, Both, Common, Unless;
    var x0, x1, x2, x3 := c0 && d0, c1 && d1, c2 && d2, c3 && d3;
    ShownTogether(s, c0, c1, c2, c3, d0, d1, d2, d3, x0, x1, x2, x3);
    ShownFlags(t0, t1, t2, t3, d0, d1, d2, d3, t0, t1, t2, t3);
    FlagsDecide(0, 0, x0, x1, x2, x3, t0, t1, t2, t3);
  }

  /** A flag is as a result wants it. */
  predicate FlagHeld(r: Outcome, c: bool) { r == DontCare || (r == IsTrue) == c }

  lemma FlagCared(r: Outcome, c: bool)
    ensures FlagHeld(r, c) <==> (c && r != DontCare) == (r == IsTrue)
  {
  }

  /** The state and the flags below the first slot are as wanted exactly when every flag is. */
  lemma FlagsHeld(s: bv32, w: bv32, c0: bool, c1: bool, c2: bool, c3: bool, r0: Outcome, r1: Outcome, r2: Outcome,
                  r3: Outcome)
    requires s <= 0xff && w <= 0xff
    ensures var flags := Flagged(c0, c1, c2, c3);
      var wanted := Flagged(r0 == IsTrue, r1 == IsTrue, r2 == IsTrue, r3 == IsTrue);
      var open := Unless(Flagged(r0 != DontCare, r1 != DontCare, r2 != DontCare, r3 != DontCare));
      var held := FlagHeld(r0, c0) && FlagHeld(r1, c1) && FlagHeld(r2, c2) && FlagHeld(r3, c3);
      (Shown(Both(s, flags), open) == Shown(wanted, open) <==> held) &&
      (Shown(Both(s, flags), Common(open, 0xffffff00)) == Shown(Both(wanted, w), Common(open, 0xffffff00))
       <==> held && s == w)
  {
    hide Flagged, Shown, Both, Common, Unless, FlagHeld;
    OnlyFlags(s, c0, c1, c2, c3, r0 == IsTrue, r1 == IsTrue, r2 == IsTrue, r3 == IsTrue,
              r0 != DontCare, r1 != DontCare, r2 != DontCare, r3 != DontCare);
    StateAndFlags(s, w, c0, c1, c2, c3, r0 == IsTrue, r1 == IsTrue, r2 == IsTrue, r3 == IsTrue,
                  r0 != DontCare, r1 != DontCare, r2 != DontCare, r3 != DontCare);
    FlagCared(r0, c0);
    FlagCared(r1, c1);
    FlagCared(r2, c2);
    FlagCared(r3, c3);
  }

  /** The bits below the first slot: the state and the conditions. */
  lemma BelowSlots(k: RuntimeKey, rs: seq<Outcome>, wanted: bv32)
    requires k.Valid() && wanted <= 0xff
    ensures Shown(Both(k.state, ConditionBits(k.conditions)), OpenBits(rs)) == Shown(TrueBits(rs), OpenBits(rs))
       <==> HeldOutcomes(rs, k.conditions)
    ensures Shown(Both(k.state, ConditionBits(k.conditions)), Common(OpenBits(rs), 0xffffff00))
         == Shown(Both(TrueBits(rs), wanted), Common(OpenBits(rs), 0xffffff00))
       <==> HeldOutcomes(rs, k.conditions) && k.state == wanted
  {
    hide Flagged, Shown, Both, Common, Unless, At, FlagHeld;
    var c := k.conditions;
    FlagsHeld(k.state, wanted, c[0], c[1], c[2], c[3], At(rs, 0), At(rs, 1), At(rs, 2), At(rs, 3));
    assert HeldOutcomes(rs, c) <==> Held(rs, c, 0) && Held(rs, c, 1) && Held(rs, c, 2) && Held(rs, c, 3);
  }

  predicate Held(rs: seq<Outcome>, c: seq<bool>, j: nat)
    requires j < |c|
  {
    FlagHeld(At(rs, j), c[j])
  }

  lemma LowKey(k: RuntimeKey)
    requires k.Valid()
    ensures Low(k.state) == k.state && Low(ConditionBits(k.conditions)) == ConditionBits(k.conditions)
    ensures Low(Both(k.state, ConditionBits(k.conditions))) == Both(k.state, ConditionBits(k.conditions))
  {
    hide Low, Both, Flagged, Shown, Common;
    var c := k.conditions;
    ShownState(k.state, 0);
    LowFlagged(c[0], c[1], c[2], c[3]);
    LowBoth(k.state, ConditionBits(c));
  }

  lemma LowFlagged(c0: bool, c1: bool, c2: bool, c3: bool)
    ensures Low(Flagged(c0, c1, c2, c3)) == Flagged(c0, c1, c2, c3)
  {
  }

  lemma LowBoth(s: bv32, f: bv32)
    ensures Low(Both(s, f)) == Both(Low(s), Low(f))
  {
  }

  /** What is below the first slot of the finished words. */
  predicate Finished(state: bv32, rs: seq<Outcome>, v: bv32, m: bv32) {
    if state == 255 then Low(v) == TrueBits(rs) && Low(m) == OpenBits(rs)
    else Low(v) == Both(TrueBits(rs), StateBits(state)) && Low(m) == Common(OpenBits(rs), 0xffffff00)
  }

  /** The first word of a key matches when state and conditions are as wanted and the first slot begins well. */
  lemma FirstWordMatches(v: bv32, m: bv32, state: bv32, rs: seq<Outcome>, k: RuntimeKey)
    requires k.Valid() && Finished(state, rs, v, m)
    ensures Agrees(Words(k)[0], v, m)
       <==> (state == 255 || k.state == StateBits(state)) && HeldOutcomes(rs, k.conditions) &&
            Top(Shown(Up(k.slots[0]), m)) == Top(Shown(v, m))
  {
    hide Agrees, Shown, Low, Top, Up, Down, FirstWord, NextWord, Both, Common, TrueBits, OpenBits, ConditionBits,
      HeldOutcomes;
    var below := Both(k.state, ConditionBits(k.conditions));
    LowKey(k);
    FirstParts(k.state, ConditionBits(k.conditions), k.slots[0]);
    WordAgrees(Words(k)[0], v, m, below, Up(k.slots[0]));
    ShownParts(below, m);
    ShownParts(v, m);
    BelowSlots(k, rs, StateBits(state));
  }

  lemma LastWordMatches(v: bv32, m: bv32, k: RuntimeKey)
    requires k.Valid() && Top(m) == 0xff000000
    ensures Agrees(Words(k)[3], v, m) <==> Low(Shown(Down(k.slots[2]), m)) == Low(Shown(v, m))
  {
    hide Agrees, Shown, Low, Top, Up, Down, FirstWord, NextWord;
    WordAgrees(Words(k)[3], v, m, Down(k.slots[2]), Down(k.slots[2]));
    LastParts(k.slots[2], v);
    ShownParts(Down(k.slots[2]), m);
    ShownParts(v, m);
  }

  /** The words match when the first one begins well, as `begins` says, and every slot agrees. */
  lemma MatchesBySlots(value: seq<bv32>, mask: seq<bv32>, k: RuntimeKey, begins: bool)
    requires k.Valid() && |value| == 4 && |mask| == 8 && Top(mask[3]) == 0xff000000
    requires Agrees(Words(k)[0], value[0], mask[0])
        <==> begins && Top(Shown(Up(k.slots[0]), mask[0])) == Top(Shown(value[0], mask[0]))
    ensures Matches(value, mask, Words(k))
       <==> begins && forall p :: 0 <= p < 3 ==> Agrees(k.slots[p], Slot(value, p), Slot(mask, p))
  {
    hide Agrees, Shown, Low, Top, Join, Up, Down, FirstWord, NextWord;
    NextParts(k.slots[0], k.slots[1]);
    WordAgrees(Words(k)[1], value[1], mask[1], Down(k.slots[0]), Up(k.slots[1]));
    NextParts(k.slots[1], k.slots[2]);
    WordAgrees(Words(k)[2], value[2], mask[2], Down(k.slots[1]), Up(k.slots[2]));
    LastWordMatches(value[3], mask[3], k);
    SlotAgrees(k.slots[0], value[0], value[1], mask[0], mask[1]);
    SlotAgrees(k.slots[1], value[1], value[2], mask[1], mask[2]);
    SlotAgrees(k.slots[2], value[2], value[3], mask[2], mask[3]);
  }

  /** The words of a key match exactly when the key has what the entry asks for. */
  lemma EntryMatches(value: seq<bv32>, mask: seq<bv32>, state: bv32, conditions: seq<PackedCondition>,
                     results: seq<Outcome>,
                     hfs: seq<HeaderField>, k: RuntimeKey)
    requires Writable(conditions, results, hfs) && k.Valid() && |value| == 4 && |mask| == 8
    requires Top(mask[3]) == 0xff000000
    requires Finished(state, ComputedResults(conditions, results, |conditions|), value[0], mask[0])
    requires forall p :: 0 <= p < 3 ==> Slot(value, p) == Asked(conditions, results, hfs, |conditions|, p)
    requires forall p :: 0 <= p < 3 ==> Slot(mask, p) == Open(conditions, results, hfs, |conditions|, p)
    ensures Matches(value, mask, Words(k)) <==> Wanted(state, conditions, results, hfs, k)
  {
    hide Agrees, Shown, Top, Slot, Up, HeldOutcomes, Asked, Open, Finished, ComputedResults, StateBits, Matches, Words;
    var rs := ComputedResults(conditions, results, |conditions|);
    FirstWordMatches(value[0], mask[0], state, rs, k);
    MatchesBySlots(value, mask, k, (state == 255 || k.state == StateBits(state)) && HeldOutcomes(rs, k.conditions));
  }

  lemma Blank(value: seq<bv32>, mask: seq<bv32>, conditions: seq<PackedCondition>, results: seq<Outcome>,
              hfs: seq<HeaderField>)
    requires Writable(conditions, results, hfs) && |value| == 4 && |mask| == 8
    requires (forall i :: 0 <= i < 4 ==> value[i] == 0) && (forall i :: 0 <= i < 8 ==> mask[i] == 0xffffffff)
    ensures Shaped(value, mask, conditions, results, hfs, 0)
  {
    assert Join(0, 0) == 0 && Join(0xffffffff, 0xffffffff) == 0xffffffff;
  }

  /** The state goes below the conditions and leaves everything else alone. */
  lemma AddState(v: bv32, m: bv32, c: bv32, state: bv32)
    ensures Low(Both(v, StateBits(state))) == Both(Low(v), StateBits(state))
    ensures Join(Both(v, StateBits(state)), c) == Join(v, c)
    ensures Low(Common(m, 0xffffff00)) == Common(Low(m), 0xffffff00) && Join(Common(m, 0xffffff00), c) == Join(m, c)
  {
    hide Low, Both, Join, Common, Invert, StateBits;
    LowState(state);
    BelowSlot(v, c, StateBits(state));
    BelowSlot(m, c, 0xff);
  }

  lemma LowState(state: bv32)
    ensures Low(StateBits(state)) == StateBits(state) && Low(0xff) == 0xff && Invert(0xff) == 0xffffff00
  {
  }

  /** Writes the value and mask words for a row of any stage; header fields are always looked up in the list of the
      first stage. */
  method WriteTcam2Entry(state: bv32, results: seq<Outcome>, conditions: seq<PackedCondition>,
                         lists: seq<seq<HeaderField>>)
    returns (value: array<bv32>, mask: array<bv32>)
    requires lists != [] && Writable(conditions, results, lists[0])
    ensures value.Length == 4 && mask.Length == 8
    ensures forall k: RuntimeKey :: k.Valid() ==>
      (Matches(value[..], mask[..], Words(k)) <==> Wanted(state, conditions, results, lists[0], k))
  {
    hide Asked, Open, Wanted, Matches, Words, Shaped, TrueBits, OpenBits;
    var hfs := lists[0];
    value, mask := WriteConditionBits(results, conditions, hfs);
    WriteState(state, results, conditions, hfs, value, mask);
    forall k: RuntimeKey | k.Valid()
      ensures Matches(value[..], mask[..], Words(k)) <==> Wanted(state, conditions, results, hfs, k) {
      EntryMatches(value[..], mask[..], state, conditions, results, hfs, k);
    }
  }

  method WriteState(state: bv32, ghost results: seq<Outcome>, ghost conditions: seq<PackedCondition>,
                    ghost hfs: seq<HeaderField>,
                    value: array<bv32>, mask: array<bv32>)
    requires Writable(conditions, results, hfs) && value.Length == 4 && mask.Length == 8
    requires Shaped(value[..], mask[..], conditions, results, hfs, |conditions|)
    modifies value, mask
    ensures Finished(state, ComputedResults(conditions, results, |conditions|), value[0], mask[0])
    ensures Top(mask[3]) == 0xff000000
    ensures forall p :: 0 <= p < 3 ==> Slot(value[..], p) == Asked(conditions, results, hfs, |conditions|, p)
    ensures forall p :: 0 <= p < 3 ==> Slot(mask[..], p) == Open(conditions, results, hfs, |conditions|, p)
  {
    hide Low, Both, Join, Common, StateBits, TrueBits, OpenBits, Top, Asked, Open;
    if state != 255 {
      AddState(value[0], mask[0], value[1], state);
      AddState(value[0], mask[0], mask[1], state);
      value[0] := Both(value[0], StateBits(state));
      mask[0] := Common(mask[0], 0xffffff00);
      assert forall p :: 0 <= p < 3 ==>
        Slot(value[..], p) == Slot(old(value[..]), p) && Slot(mask[..], p) == Slot(old(mask[..]), p);
    }
  }

  /** Goes through the conditions with a running number for the computed ones. */
  method WriteConditionBits(results: seq<Outcome>, conditions: seq<PackedCondition>, hfs: seq<HeaderField>)
    returns (value: array<bv32>, mask: array<bv32>)
    requires Writable(conditions, results, hfs)
    ensures fresh(value) && fresh(mask) && value.Length == 4 && mask.Length == 8
    ensures Shaped(value[..], mask[..], conditions, results, hfs, |conditions|)
  {
    hide Shaped, Asked, Open;
    value := new bv32[4](_ => 0);
    mask := new bv32[8](_ => 0xffffffff);
    Blank(value[..], mask[..], conditions, results, hfs);
    var j := 0;
    for i := 0 to |results|
      invariant value.Length == 4 && mask.Length == 8 && fresh(value) && fresh(mask)
      invariant j == |ComputedResults(conditions, results, i)|
      invariant Shaped(value[..], mask[..], conditions, results, hfs, i)
    {
      var cond := conditions[i];
      if results[i] == DontCare {
        Ignored(value[..], mask[..], conditions, results, hfs, i);
        if cond.Computed? {
          j := j + 1;
        }
      } else if cond.Exact? {
        AddExact(value, mask, conditions, results, hfs, i, cond);
      } else {
        AddComputed(value, mask, conditions, results, hfs, i, j);
        j := j + 1;
      }
    }
  }

  /** A condition that the row ignores changes nothing. */
  lemma Ignored(value: seq<bv32>, mask: seq<bv32>, conditions: seq<PackedCondition>, results: seq<Outcome>,
                hfs: seq<HeaderField>, i: nat)
    requires Writable(conditions, results, hfs) && i < |conditions| && results[i] == DontCare
    requires Shaped(value, mask, conditions, results, hfs, i)
    ensures Shaped(value, mask, conditions, results, hfs, i + 1)
  {
    hide Low, Top, Join, Both, Common, TrueBits, OpenBits;
    if conditions[i].Computed? {
      RegistersInOrder(conditions, results, i + 1);
      MoreBits(ComputedResults(conditions, results, i), results[i]);
    }
  }

  // ---------------------------------------------------------------- what the row means

  /** The number in the first bytes of a slot, which come from the packet in network order. */
  function FieldValue(slot: bv32, length: nat): bv32 {
    if length == 4 then Number4(slot)
    else if length == 3 then Number3(slot)
    else if length == 2 then Number2(slot)
    else Byte(slot)
  }

  function Number2(slot: bv32): bv32 { ((slot & 0xff) << 8) | ((slot >> 8) & 0xff) }

  function Number3(slot: bv32): bv32 { ((slot & 0xff) << 16) | (slot & 0xff00) | ((slot >> 16) & 0xff) }

  function Number4(slot: bv32): bv32 {
    ((slot & 0xff) << 24) | (((slot >> 8) & 0xff) << 16) | (((slot >> 16) & 0xff) << 8) | (slot >> 24)
  }

  predicate CompareWords(comparison: Comparison, a: bv32, b: bv32) {
    match comparison
    case Less => a < b
    case LessEq => a <= b
    case Greater => a > b
    case GreaterEq => a >= b
    case Equal => a == b
    case NotEqual => a != b
  }

  /** A condition on packet bytes is matched in the memory exactly when it compares them with a constant in a way that
      is true of equal numbers alone; it is then true of a slot when the bytes there compare as it says. */
  lemma PackedMeaning(c: RawCondition, slot: bv32)
    requires c.op0.HeaderOperand? && c.op0.field.PktField? && Supported(c.op0.field)
    ensures Pack(c).Exact? <==>
            (c.op1.IntegerConst? && forall a: bv32, b: bv32 :: CompareWords(c.comparison, a, b) <==> a == b)
    ensures Pack(c).Exact? ==>
      (ExactHolds(slot, Pack(c)) <==> CompareWords(c.comparison, FieldValue(slot, c.op0.field.length), c.op1.value))
  {
    hide Byte, Number2, Number3, Number4;
    assert CompareWords(LessEq, 0, 1) && CompareWords(GreaterEq, 1, 0) && !CompareWords(Less, 0, 0);
    assert !CompareWords(Greater, 0, 0) && !CompareWords(NotEqual, 0, 0);
  }

  /** A constant that its field can hold, for the lengths that are supported. */
  predicate Fitting(c: PackedCondition) {
    c.Exact? && c.field.PktField? ==>
      c.field.length in {1, 2, 4} && (c.field.length == 1 ==> c.constant <= 0xff) &&
        (c.field.length == 2 ==> c.constant <= 0xffff)
  }

  /** The packet came by a port, numbered from 1: of the byte in the slot, two bits belong to each port, and the lower
      one of this port's is all that is set. */
  predicate CameBy(slot: bv32, port: bv32)
    requires 1 <= port <= 4
  {
    Byte(slot) == PortBit(port)
  }

  function PortBit(port: bv32): bv32
    requires 1 <= port <= 4
  {
    1 << (2 * (port - 1))
  }

  /** An exact condition is true of a slot: the field has the constant, or the packet came by the port. */
  predicate ExactHolds(slot: bv32, c: PackedCondition)
    requires c.Exact? && Encodable(c)
  {
    if c.field.EventField? then CameBy(slot, c.constant) else FieldValue(slot, c.field.length) == c.constant
  }

  /** Four bytes of a packet in a slot: the first one is the lowest. */
  function InSlot(b0: bv32, b1: bv32, b2: bv32, b3: bv32): bv32 { b0 | (b1 << 8) | (b2 << 16) | (b3 << 24) }

  /** The value of a field is the number that its bytes are in network order, whatever comes behind them. */
  lemma SlotOfBytes(b0: bv32, b1: bv32, b2: bv32, b3: bv32)
    requires b0 <= 0xff && b1 <= 0xff && b2 <= 0xff && b3 <= 0xff
    ensures FieldValue(InSlot(b0, b1, b2, b3), 1) == b0
    ensures FieldValue(InSlot(b0, b1, b2, b3), 2) == (b0 << 8) | b1
    ensures FieldValue(InSlot(b0, b1, b2, b3), 3) == (b0 << 16) | (b1 << 8) | b2
    ensures FieldValue(InSlot(b0, b1, b2, b3), 4) == (b0 << 24) | (b1 << 16) | (b2 << 8) | b3
  {
    hide InSlot, Byte, Number2, Number3, Number4;
    ByteInSlot(b0, b1, b2, b3);
    TwoInSlot(b0, b1, b2, b3);
    ThreeInSlot(b0, b1, b2, b3);
    FourInSlot(b0, b1, b2, b3);
  }

  lemma ByteInSlot(b0: bv32, b1: bv32, b2: bv32, b3: bv32)
    requires b0 <= 0xff
    ensures Byte(InSlot(b0, b1, b2, b3)) == b0
  {
  }

  lemma TwoInSlot(b0: bv32, b1: bv32, b2: bv32, b3: bv32)
    requires b0 <= 0xff && b1 <= 0xff
    ensures Number2(InSlot(b0, b1, b2, b3)) == (b0 << 8) | b1
  {
  }

  lemma ThreeInSlot(b0: bv32, b1: bv32, b2: bv32, b3: bv32)
    requires b0 <= 0xff && b1 <= 0xff && b2 <= 0xff
    ensures Number3(InSlot(b0, b1, b2, b3)) == (b0 << 16) | (b1 << 8) | b2
  {
  }

  lemma FourInSlot(b0: bv32, b1: bv32, b2: bv32, b3: bv32)
    requires b0 <= 0xff && b1 <= 0xff && b2 <= 0xff && b3 <= 0xff
    ensures Number4(InSlot(b0, b1, b2, b3)) == (b0 << 24) | (b1 << 16) | (b2 << 8) | b3
  {
  }

  function Byte(x: bv32): bv32 { x & 0xff }

  function Half(x: bv32): bv32 { x & 0xffff }

  lemma Number4Inverse(x: bv32)
    ensures Number4(Swap4(x)) == x && Swap4(Number4(x)) == x && Shown(x, 0) == x
  {
  }

  lemma Number2Inverse(x: bv32)
    ensures Number2(Swap2(x)) == Half(x) && Swap2(Number2(x)) == Half(x) && Half(Swap2(x)) == Swap2(x)
  {
  }

  lemma Number2Half(x: bv32)
    ensures Number2(Half(x)) == Number2(x) && Shown(x, 0xffff0000) == Half(x)
  {
  }

  lemma ShownByte(x: bv32)
    ensures Shown(x, 0xffffff00) == Byte(x)
  {
  }

  lemma Narrow(x: bv32)
    ensures (x <= 0xff ==> Byte(x) == x) && (x <= 0xffff ==> Half(x) == x)
  {
  }

  lemma OneByte(slot: bv32, c: bv32)
    requires c <= 0xff
    ensures Agrees(slot, c, 0xffffff00) <==> Byte(slot) == c
  {
    hide Shown, Byte, Half;
    ShownByte(slot);
    ShownByte(c);
    Narrow(c);
  }

  lemma TwoBytes(slot: bv32, c: bv32)
    requires c <= 0xffff
    ensures Agrees(slot, Swap2(c), 0xffff0000) <==> Number2(slot) == c
  {
    hide Shown, Swap2, Number2, Byte, Half;
    Narrow(c);
    Number2Inverse(c);
    Number2Inverse(slot);
    Number2Half(slot);
    Number2Half(Swap2(c));
  }

  lemma FourBytes(slot: bv32, c: bv32)
    ensures Agrees(slot, Swap4(c), 0) <==> Number4(slot) == c
  {
    hide Shown, Swap4, Number4;
    Number4Inverse(c);
    Number4Inverse(slot);
    Number4Inverse(Swap4(c));
  }

  /** The words written for the ports have a bit each, and two ports never the same one. */
  lemma PortBits(port: bv32)
    requires 1 <= port <= 4
    ensures PortBit(port) <= 0xff
    ensures forall name :: Encoded(Exact(EventField(name), port)) == PortBit(port)
  {
  }

  lemma PortsApart(p: bv32, q: bv32)
    requires 1 <= p <= 4 && 1 <= q <= 4 && p != q
    ensures PortBit(p) != PortBit(q)
  {
  }

  /** What the encoding asks for, whatever the constant: a constant is cut to the length of its field, and one for a
      field of three bytes becomes 0. */
  predicate AskedFor(slot: bv32, c: PackedCondition)
    requires c.Exact? && Encodable(c)
  {
    match c.field
    case EventField(_) => CameBy(slot, c.constant)
    case PktField(_, length) =>
      FieldValue(slot, length) == if length == 4 then c.constant else if length == 3 then 0
                                  else if length == 2 then Half(c.constant) else Byte(c.constant)
  }

  lemma AnyByte(slot: bv32, c: bv32)
    ensures Agrees(slot, c, 0xffffff00) <==> Byte(slot) == Byte(c)
  {
    hide Shown, Byte;
    ShownByte(slot);
    ShownByte(c);
  }

  lemma AnyTwoBytes(slot: bv32, c: bv32)
    ensures Agrees(slot, Swap2(c), 0xffff0000) <==> Number2(slot) == Half(c)
  {
    hide Swap2, Number2, Agrees, Half;
    CutToHalf(c);
    TwoBytes(slot, Half(c));
  }

  lemma CutToHalf(c: bv32)
    ensures Swap2(Half(c)) == Swap2(c) && Half(c) <= 0xffff
  {
  }

  lemma ThreeBytesOfZero(slot: bv32)
    ensures Agrees(slot, 0, 0xff000000) <==> Number3(slot) == 0
  {
  }

  /** An entry asks for exactly these slots. */
  lemma EncodingExactly(slot: bv32, c: PackedCondition)
    requires c.Exact? && Encodable(c)
    ensures Agrees(slot, Encoded(c), MaskOf(c)) <==> AskedFor(slot, c)
  {
    hide Agrees, Swap2, Swap4, Number2, Number3, Number4, Byte, Half, PortBit;
    match c.field
    case EventField(_) =>
      PortBits(c.constant);
      OneByte(slot, PortBit(c.constant));
    case PktField(_, length) =>
      if length == 1 {
        AnyByte(slot, c.constant);
      } else if length == 2 {
        AnyTwoBytes(slot, c.constant);
      } else if length == 3 {
        ThreeBytesOfZero(slot);
      } else {
        FourBytes(slot, c.constant);
      }
  }

  /** For constants that fit their field, these are exactly the slots of which the condition is true: for a port, those
      of packets that came by it. */
  lemma EncodingIsRight(slot: bv32, c: PackedCondition)
    requires c.Exact? && Encodable(c) && Fitting(c)
    ensures Agrees(slot, Encoded(c), MaskOf(c)) <==> ExactHolds(slot, c)
  {
    hide Agrees, Encoded, MaskOf, FieldValue, CameBy, Byte, Half;
    EncodingExactly(slot, c);
    Narrow(c.constant);
  }

  /** What the loader is given: every field that an exact condition looks at is listed. */
  predicate Listing(conditions: seq<PackedCondition>, results: seq<Outcome>, hfs: seq<HeaderField>) {
    Writable(conditions, results, hfs) &&
    forall i :: 0 <= i < |conditions| && conditions[i].Exact? ==> conditions[i].field in hfs
  }

  /** The same with constants that their fields can hold. */
  predicate WellFormed(conditions: seq<PackedCondition>, results: seq<Outcome>, hfs: seq<HeaderField>) {
    Listing(conditions, results, hfs) &&
    forall i :: 0 <= i < |conditions| && conditions[i].Exact? ==> Fitting(conditions[i])
  }

  /** The number of the register of a computed condition. */
  function RegisterOf(conditions: seq<PackedCondition>, i: nat): nat
    requires i < |conditions|
  {
    |ComputedOnes(conditions[..i])|
  }

  /** The register of a computed condition is the one that was loaded with it. */
  lemma {:induction false} RegisterHasCondition(conditions: seq<PackedCondition>, i: nat)
    requires i < |conditions| && conditions[i].Computed?
    ensures RegisterOf(conditions, i) < |ComputedOnes(conditions)|
    ensures ComputedOnes(conditions)[RegisterOf(conditions, i)] == conditions[i]
    decreases |conditions|
  {
    var front := conditions[..|conditions| - 1];
    if i < |front| {
      assert front[..i] == conditions[..i];
      RegisterHasCondition(front, i);
    }
  }

  /** The condition `i` is true of a key. */
  ghost predicate CondHolds(conditions: seq<PackedCondition>, results: seq<Outcome>, hfs: seq<HeaderField>, i: nat,
                            k: RuntimeKey)
    requires Listing(conditions, results, hfs) && k.Valid() && i < |conditions|
  {
    if conditions[i].Exact? then ExactHolds(k.slots[FindPosition(hfs, conditions[i].field)], conditions[i])
    else RegisterOf(conditions, i) < 4 && k.conditions[RegisterOf(conditions, i)]
  }

  /** A key satisfies a row: its state, and the outcome of every condition that the row does not ignore. */
  ghost predicate RowHolds(state: bv32, conditions: seq<PackedCondition>, results: seq<Outcome>, hfs: seq<HeaderField>,
                           k: RuntimeKey)
    requires Listing(conditions, results, hfs) && k.Valid()
  {
    (state == 255 || k.state == StateBits(state)) &&
    forall i :: 0 <= i < |conditions| ==>
      results[i] == DontCare || ((results[i] == IsTrue) <==> CondHolds(conditions, results, hfs, i, k))
  }

  /** No two exact conditions that the row uses ask the same field for different constants. */
  predicate OneConstantPerField(conditions: seq<PackedCondition>, results: seq<Outcome>)
    requires |results| == |conditions|
  {
    forall i, l ::
      0 <= i < |conditions| && 0 <= l < |conditions| && Used(conditions, results, i) && Used(conditions, results, l) ==>
      conditions[i].field == conditions[l].field ==> conditions[i].constant == conditions[l].constant
  }

  /** The row wants no exact condition to be false. */
  predicate NoExactFalse(conditions: seq<PackedCondition>, results: seq<Outcome>)
    requires |results| == |conditions|
  {
    forall i :: 0 <= i < |conditions| && Used(conditions, results, i) ==> results[i] == IsTrue
  }

  predicate Used(conditions: seq<PackedCondition>, results: seq<Outcome>, i: nat)
    requires |results| == |conditions| && i < |conditions|
  {
    conditions[i].Exact? && results[i] != DontCare
  }

  /** The outcomes wanted of the registers are those wanted of the computed conditions. */
  lemma {:induction false} RegistersHold(conditions: seq<PackedCondition>, results: seq<Outcome>, held: seq<bool>,
                                         n: nat)
    requires |results| == |conditions| && n <= |conditions| && |ComputedOnes(conditions)| <= 4 && |held| == 4
    ensures HeldOutcomes(ComputedResults(conditions, results, n), held)
       <==> forall i :: 0 <= i < n && conditions[i].Computed? ==> RegisterHolds(conditions, results, held, i)
  {
    if n > 0 {
      RegistersHold(conditions, results, held, n - 1);
      RegistersInOrder(conditions, results, n - 1);
      RegistersInOrder(conditions, results, n);
      var rs := ComputedResults(conditions, results, n - 1);
      if conditions[n - 1].Computed? {
        OneMore(rs, results[n - 1], held);
        assert RegisterOf(conditions, n - 1) == |rs|;
      }
    }
  }

  predicate RegisterHolds(conditions: seq<PackedCondition>, results: seq<Outcome>, held: seq<bool>, i: nat)
    requires |results| == |conditions| && i < |conditions| && |held| == 4
  {
    results[i] == DontCare ||
    ((results[i] == IsTrue) <==> RegisterOf(conditions, i) < 4 && held[RegisterOf(conditions, i)])
  }

  lemma OneMore(rs: seq<Outcome>, r: Outcome, held: seq<bool>)
    requires |rs| < 4 && |held| == 4
    ensures HeldOutcomes(rs + [r], held) <==> HeldOutcomes(rs, held) && (r == DontCare || (r == IsTrue) == held[|rs|])
  {
    var t := rs + [r];
    assert forall j :: 0 <= j < 4 && j != |rs| ==> At(t, j) == At(rs, j);
    assert At(rs, |rs|) == DontCare && At(t, |rs|) == r;
    assert HeldOutcomes(t, held) ==> Held(t, held, |rs|);
    if HeldOutcomes(t, held) {
      forall j | 0 <= j < 4 ensures Held(rs, held, j) {
        assert Held(t, held, j);
      }
    }
    if HeldOutcomes(rs, held) && (r == DontCare || (r == IsTrue) == held[|rs|]) {
      forall j | 0 <= j < 4 ensures Held(t, held, j) {
        assert Held(rs, held, j);
      }
    }
  }

  /** What a row with one constant per field asks of a slot: nothing, or what its one condition there asks. */
  lemma {:induction false} AskedOnce(conditions: seq<PackedCondition>, results: seq<Outcome>, hfs: seq<HeaderField>,
                                     n: nat, p: nat, c: PackedCondition)
    requires Writable(conditions, results, hfs) && n <= |conditions| && c.Exact? && Encodable(c)
    requires forall i :: 0 <= i < n && Constrains(conditions, results, hfs, i, p) ==> conditions[i] == c
    ensures (forall i :: 0 <= i < n ==> !Constrains(conditions, results, hfs, i, p)) ==>
      Asked(conditions, results, hfs, n, p) == 0 && Open(conditions, results, hfs, n, p) == 0xffffffff
    ensures (exists i :: 0 <= i < n && Constrains(conditions, results, hfs, i, p)) ==>
      Asked(conditions, results, hfs, n, p) == Encoded(c) && Open(conditions, results, hfs, n, p) == MaskOf(c)
  {
    hide Both, Common, Encoded, MaskOf;
    if n > 0 {
      AskedOnce(conditions, results, hfs, n - 1, p, c);
      Idempotent(Encoded(c), MaskOf(c));
    }
  }

  lemma Idempotent(a: bv32, b: bv32)
    ensures Both(a, a) == a && Both(0, a) == a && Common(b, b) == b && Common(0xffffffff, b) == b
  {
  }

  /** A slot has what the entry asks for exactly when all exact conditions on it are true. */
  lemma SlotIsRight(conditions: seq<PackedCondition>, results: seq<Outcome>, hfs: seq<HeaderField>, p: nat, slot: bv32)
    requires WellFormed(conditions, results, hfs) && OneConstantPerField(conditions, results) && p < 3
    ensures Agrees(slot, Asked(conditions, results, hfs, |conditions|, p),
      Open(conditions, results, hfs, |conditions|, p))
       <==> forall i :: 0 <= i < |conditions| && Constrains(conditions, results, hfs, i, p) ==>
         ExactHolds(slot, conditions[i])
  {
    hide Agrees, Encoded, MaskOf, ExactHolds, Asked, Open;
    if i :| 0 <= i < |conditions| && Constrains(conditions, results, hfs, i, p) {
      forall l | 0 <= l < |conditions| && Constrains(conditions, results, hfs, l, p)
        ensures conditions[l] == conditions[i] {
        assert Used(conditions, results, i) && Used(conditions, results, l);
      }
      AskedOnce(conditions, results, hfs, |conditions|, p, conditions[i]);
      EncodingIsRight(slot, conditions[i]);
    } else {
      AskedOnce(conditions, results, hfs, |conditions|, p, Exact(EventField(""), 1));
      AllOpen(slot);
    }
  }

  lemma AllOpen(slot: bv32)
    ensures Agrees(slot, 0, 0xffffffff)
  {
  }

  /** The key that an entry asks for, with its state, its condition outcomes and its slots. */
  function Witness(state: bv32, conditions: seq<PackedCondition>, results: seq<Outcome>,
                   hfs: seq<HeaderField>): (k: RuntimeKey)
    requires Writable(conditions, results, hfs)
    ensures k.Valid()
  {
    var rs, n := ComputedResults(conditions, results, |conditions|), |conditions|;
    RuntimeKey(StateBits(state),
               [At(rs, 0) == IsTrue, At(rs, 1) == IsTrue, At(rs, 2) == IsTrue, At(rs, 3) == IsTrue],
               [Asked(conditions, results, hfs, n, 0), Asked(conditions, results, hfs, n, 1),
                 Asked(conditions, results, hfs, n, 2)])
  }

  lemma WitnessIsWanted(state: bv32, conditions: seq<PackedCondition>, results: seq<Outcome>, hfs: seq<HeaderField>)
    requires Writable(conditions, results, hfs)
    ensures Wanted(state, conditions, results, hfs, Witness(state, conditions, results, hfs))
  {
    hide Asked, Open, Shown, ComputedResults, StateBits;
    var k, rs := Witness(state, conditions, results, hfs), ComputedResults(conditions, results, |conditions|);
    assert Held(rs, k.conditions, 0) && Held(rs, k.conditions, 1) && Held(rs, k.conditions, 2);
    assert Held(rs, k.conditions, 3);
  }

  /** Whatever an entry asks of the condition registers is what the row wants of the computed conditions. */
  lemma ComputedPart(conditions: seq<PackedCondition>, results: seq<Outcome>, hfs: seq<HeaderField>, k: RuntimeKey)
    requires Listing(conditions, results, hfs) && k.Valid()
    ensures HeldOutcomes(ComputedResults(conditions, results, |conditions|), k.conditions)
       <==> forall i :: 0 <= i < |conditions| && conditions[i].Computed? ==>
              results[i] == DontCare || ((results[i] == IsTrue) <==> CondHolds(conditions, results, hfs, i, k))
  {
    RegistersHold(conditions, results, k.conditions, |conditions|);
    forall i | 0 <= i < |conditions| && conditions[i].Computed?
      ensures RegisterHolds(conditions, results, k.conditions, i)
         <==> (results[i] == DontCare || ((results[i] == IsTrue) <==> CondHolds(conditions, results, hfs, i, k))) {
    }
  }

  /** The entry of a row with one constant per field matches a key exactly when the state fits, every computed
      condition comes out as wanted and every exact condition that the row uses, whatever it wants, is true. */
  lemma EntryMeaning(state: bv32, conditions: seq<PackedCondition>, results: seq<Outcome>, hfs: seq<HeaderField>,
                     k: RuntimeKey)
    requires WellFormed(conditions, results, hfs) && OneConstantPerField(conditions, results) && k.Valid()
    ensures Wanted(state, conditions, results, hfs, k)
       <==> (state == 255 || k.state == StateBits(state)) &&
            forall i :: 0 <= i < |conditions| ==>
              results[i] == DontCare
              || (if conditions[i].Exact? then CondHolds(conditions, results, hfs, i, k)
                  else (results[i] == IsTrue) <==> CondHolds(conditions, results, hfs, i, k))
  {
    hide Agrees, Asked, Open, ExactHolds, HeldOutcomes, StateBits, OneConstantPerField;
    ComputedPart(conditions, results, hfs, k);
    SlotIsRight(conditions, results, hfs, 0, k.slots[0]);
    SlotIsRight(conditions, results, hfs, 1, k.slots[1]);
    SlotIsRight(conditions, results, hfs, 2, k.slots[2]);
    forall i | 0 <= i < |conditions| && Used(conditions, results, i)
      ensures Constrains(conditions, results, hfs, i, FindPosition(hfs, conditions[i].field)) &&
        FindPosition(hfs, conditions[i].field) < 3 {
    }
  }

  /** With one constant per field, the entry matches exactly the keys that satisfy the row if and only if the row wants
      no exact condition to be false: the encoding of an exact condition does not depend on the outcome that is wanted
      of it. */
  lemma OneConstantEntry(state: bv32, conditions: seq<PackedCondition>, results: seq<Outcome>, hfs: seq<HeaderField>)
    requires WellFormed(conditions, results, hfs) && OneConstantPerField(conditions, results)
    ensures (forall k: RuntimeKey :: k.Valid() ==>
              (Wanted(state, conditions, results, hfs, k) <==> RowHolds(state, conditions, results, hfs, k)))
       <==> NoExactFalse(conditions, results)
  {
    hide Wanted, CondHolds, Witness;
    forall k: RuntimeKey | k.Valid() && NoExactFalse(conditions, results)
      ensures Wanted(state, conditions, results, hfs, k) <==> RowHolds(state, conditions, results, hfs, k) {
      EntryMeaning(state, conditions, results, hfs, k);
    }
    if i :| 0 <= i < |conditions| && Used(conditions, results, i) && results[i] != IsTrue {
      var k := Witness(state, conditions, results, hfs);
      WitnessIsWanted(state, conditions, results, hfs);
      EntryMeaning(state, conditions, results, hfs, k);
      assert !RowHolds(state, conditions, results, hfs, k);
    }
  }

  /** A field does not have two values. */
  lemma NotBoth(slot: bv32, c: PackedCondition, d: PackedCondition)
    requires c.Exact? && d.Exact? && Encodable(c) && Encodable(d)
    requires c.field == d.field && c.constant != d.constant
    ensures !(ExactHolds(slot, c) && ExactHolds(slot, d))
  {
    hide Byte, FieldValue, PortBit;
    if c.field.EventField? {
      PortsApart(c.constant, d.constant);
    }
  }

  /** Two exact conditions that want the same field to have different constants: no key satisfies the row, and
      yet the entry matches some key. */
  lemma ContradictionIsMatched(state: bv32, conditions: seq<PackedCondition>, results: seq<Outcome>,
                               hfs: seq<HeaderField>, i: nat, l: nat)
    requires WellFormed(conditions, results, hfs) && i < |conditions| && l < |conditions|
    requires Used(conditions, results, i) && Used(conditions, results, l) && results[i] == IsTrue
    requires results[l] == IsTrue
    requires conditions[i].field == conditions[l].field && conditions[i].constant != conditions[l].constant
    ensures forall k: RuntimeKey :: k.Valid() ==> !RowHolds(state, conditions, results, hfs, k)
    ensures exists k: RuntimeKey :: k.Valid() && Wanted(state, conditions, results, hfs, k)
  {
    hide ExactHolds, Wanted, Witness;
    WitnessIsWanted(state, conditions, results, hfs);
    forall k: RuntimeKey | k.Valid() ensures !RowHolds(state, conditions, results, hfs, k) {
      var p := FindPosition(hfs, conditions[i].field);
      NotBoth(k.slots[p], conditions[i], conditions[l]);
      assert CondHolds(conditions, results, hfs, i, k) == ExactHolds(k.slots[p], conditions[i]);
      assert CondHolds(conditions, results, hfs, l, k) == ExactHolds(k.slots[p], conditions[l]);
    }
  }
}
