/** Interning of conditions: equal conditions of a program share one identifier. */
module ConditionFactory {
  import opened Bytes
  import Efsm

  datatype RegisterKind = LocalRegister | GlobalRegister | ReadOnlyRegister

  datatype ConstantKind = IntegerConstant | IPv4 | IPv6 | MAC

  datatype Operand =
    | Register(kind: RegisterKind, name: string)
    | Constant(sort: ConstantKind, value: string)
    | PacketField(field: string, from: string, length: string, content: string)
    | EventField(event: string)

  datatype Condition = Condition(id: nat, op0: Operand, op1: Operand, opcode: Efsm.Comparison)

  // ---------------------------------------------------------------- equality

  /** The equality of operands: it compares registers by name and constants by value, whatever their class. */
  predicate Alike(a: Operand, b: Operand) {
    match (a, b)
    case (Register(_, n), Register(_, m)) => n == m
    case (Constant(_, v), Constant(_, w)) => v == w
    case (PacketField(_, _, _, _), PacketField(_, _, _, _)) => a == b
    case (EventField(_), EventField(_)) => a == b
    case _ => false
  }

  /** The equality of conditions: identifiers do not count. */
  predicate Same(c: Condition, d: Condition) {
    Alike(c.op0, d.op0) && Alike(c.op1, d.op1) && c.opcode == d.opcode
  }

  /** What an operand is compared by: of a register and of a constant the text alone, of a packet field its name, place,
      length and kind, of an event field its name. Operands of different sorts are never equal. */
  function ComparedBy(o: Operand): (nat, seq<string>) {
    match o
    case Register(_, name) => (0, [name])
    case Constant(_, value) => (1, [value])
    case PacketField(field, from, length, content) => (2, [field, from, length, content])
    case EventField(event) => (3, [event])
  }

  lemma AlikeMeans(a: Operand, b: Operand)
    ensures Alike(a, b) <==> ComparedBy(a) == ComparedBy(b)
  {
    var s, t := ComparedBy(a).1, ComparedBy(b).1;
    if ComparedBy(a) == ComparedBy(b) {
      assert s[0] == t[0];
      if a.PacketField? {
        assert s[1] == t[1] && s[2] == t[2] && s[3] == t[3];
      }
    }
  }

  lemma SameIsEquivalence(c: Condition, d: Condition, e: Condition)
    ensures Same(c, c) && (Same(c, d) ==> Same(d, c)) && (Same(c, d) && Same(d, e) ==> Same(c, e))
  {
  }

  // ---------------------------------------------------------------- the map

  /** A condition and the number it is mapped to, in insertion order. */
  datatype Entry = Entry(key: Condition, number: nat)

  predicate Contains(entries: seq<Entry>, c: Condition) { exists i :: 0 <= i < |entries| && Same(entries[i].key, c) }

  /** The position of the entry for a condition. */
  function Find(entries: seq<Entry>, c: Condition): (r: nat)
    requires Contains(entries, c)
    ensures r < |entries| && Same(entries[r].key, c) && forall i :: 0 <= i < r ==> !Same(entries[i].key, c)
  {
    if Same(entries[0].key, c) then 0
    else
      assert Contains(entries[1..], c) by {
        var i :| 0 <= i < |entries| && Same(entries[i].key, c);
        assert entries[1..][i - 1] == entries[i];
      }
      1 + Find(entries[1..], c)
  }

  /** Putting a condition: an equal one that is already there keeps its place and only gets the new number. */
  function Put(entries: seq<Entry>, c: Condition, n: nat): seq<Entry> {
    if Contains(entries, c) then entries[Find(entries, c) := Entry(entries[Find(entries, c)].key, n)]
    else entries + [Entry(c, n)]
  }

  /** Putting a condition makes its number that of all equal ones, and leaves the others theirs; there is one entry more
      only when there was no equal one. */
  lemma PutIsMap(entries: seq<Entry>, c: Condition, n: nat, d: Condition)
    ensures |Put(entries, c, n)| == |entries| + if Contains(entries, c) then 0 else 1
    ensures Contains(Put(entries, c, n), d) <==> Contains(entries, d) || Same(c, d)
    ensures Same(c, d) ==> Put(entries, c, n)[Find(Put(entries, c, n), d)].number == n
    ensures !Same(c, d) && Contains(entries, d) ==>
      Put(entries, c, n)[Find(Put(entries, c, n), d)] == entries[Find(entries, d)]
  {
    hide Alike;
    var after := Put(entries, c, n);
    PutKeys(entries, c, n);
    forall e: Condition ensures Same(c, e) <==> Same(e, c) {
      SameIsEquivalence(c, e, c);
      SameIsEquivalence(e, c, e);
    }
    if Contains(entries, d) {
      var i :| 0 <= i < |entries| && Same(entries[i].key, d);
      assert Same(after[i].key, d);
    }
    if Same(c, d) {
      var at := if Contains(entries, c) then Find(entries, c) else |entries|;
      PutSame(entries, c, n, d, at);
    } else if Contains(after, d) {
      PutOther(entries, c, n, d);
    }
  }

  lemma PutKeys(entries: seq<Entry>, c: Condition, n: nat)
    ensures forall i :: 0 <= i < |entries| ==> Put(entries, c, n)[i].key == entries[i].key
  {
  }

  lemma PutSame(entries: seq<Entry>, c: Condition, n: nat, d: Condition, at: nat)
    requires Same(c, d) && at == if Contains(entries, c) then Find(entries, c) else |entries|
    ensures Contains(Put(entries, c, n), d) && Find(Put(entries, c, n), d) == at
    ensures Put(entries, c, n)[at].number == n
  {
    hide Alike;
    var after := Put(entries, c, n);
    SameIsEquivalence(after[at].key, c, d);
    SameIsEquivalence(c, c, d);
    assert Same(after[at].key, d);
    var k := Find(after, d);
    if k < at {
      SameIsEquivalence(entries[k].key, d, c);
      SameIsEquivalence(d, c, d);
      SameIsEquivalence(c, d, c);
    }
  }

  lemma PutOther(entries: seq<Entry>, c: Condition, n: nat, d: Condition)
    requires !Same(c, d) && Contains(Put(entries, c, n), d)
    ensures Contains(entries, d) && Find(Put(entries, c, n), d) == Find(entries, d)
    ensures Put(entries, c, n)[Find(entries, d)] == entries[Find(entries, d)]
  {
    hide Alike;
    var after, k := Put(entries, c, n), Find(Put(entries, c, n), d);
    PutKeys(entries, c, n);
    assert k < |entries|;
    assert Same(entries[k].key, d);
    if Contains(entries, c) && Find(entries, c) == k {
      SameIsEquivalence(entries[k].key, c, d);
      SameIsEquivalence(c, entries[k].key, d);
      assert false;
    }
  }

  // ---------------------------------------------------------------- specification

  /** Every entry is numbered by its place and no two conditions are the same. */
  ghost predicate Numbered(entries: seq<Entry>) {
    (forall i :: 0 <= i < |entries| ==> entries[i].number == i && entries[i].key.id == i) &&
    (forall i, j :: 0 <= i < j < |entries| ==> !Same(entries[i].key, entries[j].key))
  }

  /** The conditions of a program without repetitions, in the order in which they first occur. */
  function Distinct(requests: seq<Condition>): seq<Condition> {
    if requests == [] then []
    else
      var before, last := Distinct(requests[..|requests| - 1]), requests[|requests| - 1];
      if Occurs(before, last) then before else before + [last.(id := |before|)]
  }

  predicate Occurs(cs: seq<Condition>, c: Condition) { exists i :: 0 <= i < |cs| && Same(cs[i], c) }

  lemma {:induction false} DistinctCovers(requests: seq<Condition>, k: nat)
    requires k < |requests|
    ensures Occurs(Distinct(requests), requests[k])
    decreases |requests|
  {
    var front := requests[..|requests| - 1];
    if k < |front| {
      DistinctCovers(front, k);
      var i :| 0 <= i < |Distinct(front)| && Same(Distinct(front)[i], requests[k]);
      assert Distinct(requests)[i] == Distinct(front)[i];
    } else if !Occurs(Distinct(front), requests[k]) {
      assert Same(Distinct(requests)[|Distinct(front)|], requests[k]);
    }
  }

  // ---------------------------------------------------------------- the factory

  class Factory {
    var counter: nat
    var conditions: seq<Entry>

    ghost predicate Valid()
      reads this
    {
      counter == |conditions| && Numbered(conditions)
    }

    constructor ()
      ensures Valid() && conditions == []
    {
      counter := 0;
      conditions := [];
    }

    /** Adds a condition under the next number. The numbering stays right exactly when the condition is new. */
    method CreateCondition(op0: Operand, op1: Operand, opcode: Efsm.Comparison) returns (c: Condition)
      modifies this
      ensures c == Condition(old(counter), op0, op1, opcode) && counter == old(counter) + 1
      ensures conditions == Put(old(conditions), c, old(counter))
      ensures old(Valid()) ==> (Valid() <==> !Contains(old(conditions), c))
    {
      c := Condition(counter, op0, op1, opcode);
      conditions := Put(conditions, c, counter);
      counter := counter + 1;
    }

    method IsPresent(op0: Operand, op1: Operand, opcode: Efsm.Comparison) returns (present: bool)
      ensures present <==> Contains(conditions, Condition(counter, op0, op1, opcode))
    {
      var c := Condition(counter, op0, op1, opcode);
      present := Contains(conditions, c);
    }

    /** The requested condition with the number of the equal one that is listed. */
    method GetCondition(op0: Operand, op1: Operand, opcode: Efsm.Comparison) returns (c: Condition)
      requires Valid() && Contains(conditions, Condition(counter, op0, op1, opcode))
      ensures c.op0 == op0 && c.op1 == op1 && c.opcode == opcode
      ensures c.id < |conditions| && Same(conditions[c.id].key, c)
    {
      c := Condition(counter, op0, op1, opcode);
      var at := Find(conditions, c);
      c := c.(id := conditions[at].number);
    }

    /** Hands over the listed conditions, each of which has its place as its number, and starts anew. */
    method GetConditionsAndClear() returns (cs: seq<Condition>)
      requires Valid()
      modifies this
      ensures |cs| == |old(conditions)|
      ensures forall i :: 0 <= i < |cs| ==> cs[i] == old(conditions)[i].key && cs[i].id == i
      ensures forall i, j :: 0 <= i < j < |cs| ==> !Same(cs[i], cs[j])
      ensures Valid() && conditions == []
    {
      cs := seq(|conditions|, i requires 0 <= i < |conditions| reads this => conditions[i].key);
      counter := 0;
      conditions := [];
    }

    /** What the compiler does for every condition that it reads: creates it unless it is there. */
    method Intern(op0: Operand, op1: Operand, opcode: Efsm.Comparison) returns (c: Condition)
      requires Valid()
      modifies this
      ensures Valid() && c.op0 == op0 && c.op1 == op1 && c.opcode == opcode
      ensures c.id < |conditions| && Same(conditions[c.id].key, c)
      ensures old(conditions) <= conditions
      ensures Contains(old(conditions), c) ==> conditions == old(conditions)
      ensures !Contains(old(conditions), c) ==> conditions == old(conditions) + [Entry(c, |old(conditions)|)]
    {
      var present := IsPresent(op0, op1, opcode);
      if !present {
        c := CreateCondition(op0, op1, opcode);
      } else {
        c := GetCondition(op0, op1, opcode);
        SameWithoutId(conditions, c, counter);
      }
    }

    static lemma SameWithoutId(entries: seq<Entry>, c: Condition, n: nat)
      ensures Contains(entries, c) <==> Contains(entries, c.(id := n))
    {
      if Contains(entries, c) {
        var i :| 0 <= i < |entries| && Same(entries[i].key, c);
        assert Same(entries[i].key, c.(id := n));
      }
      if Contains(entries, c.(id := n)) {
        var i :| 0 <= i < |entries| && Same(entries[i].key, c.(id := n));
        assert Same(entries[i].key, c);
      }
    }

    /** Interns all conditions of a program. The listed ones are the distinct requests in the order of their
        first occurrence, numbered from 0, and every number handed out is that of a condition equal to the
        requested one. */
    method InternAll(requests: seq<Condition>) returns (ids: seq<nat>)
      requires Valid() && conditions == []
      modifies this
      ensures Valid() && |conditions| == |Distinct(requests)|
      ensures forall i :: 0 <= i < |conditions| ==> conditions[i].key == Distinct(requests)[i]
      ensures |ids| == |requests|
      ensures forall k :: 0 <= k < |requests| ==> ids[k] < |conditions| && Same(conditions[ids[k]].key, requests[k])
    {
      ids := [];
      for k := 0 to |requests|
        invariant Valid() && Lists(conditions, Distinct(requests[..k]))
        invariant |ids| == k
        invariant forall m :: 0 <= m < k ==> ids[m] < |conditions| && Same(conditions[ids[m]].key, requests[m])
      {
        ghost var was := conditions;
        var c := Intern(requests[k].op0, requests[k].op1, requests[k].opcode);
        ids := ids + [c.id];
        ListsMore(was, conditions, requests, k, c);
        assert Same(conditions[c.id].key, requests[k]);
      }
      assert requests[..|requests|] == requests;
    }
  }

  ghost predicate Lists(entries: seq<Entry>, cs: seq<Condition>) {
    |entries| == |cs| && forall i :: 0 <= i < |entries| ==> entries[i].key == cs[i]
  }

  lemma ListsMore(was: seq<Entry>, now: seq<Entry>, requests: seq<Condition>, k: nat, c: Condition)
    requires k < |requests| && Lists(was, Distinct(requests[..k])) && Numbered(now)
    requires c.op0 == requests[k].op0 && c.op1 == requests[k].op1 && c.opcode == requests[k].opcode
    requires if Contains(was, c) then now == was else now == was + [Entry(c, |was|)]
    ensures Lists(now, Distinct(requests[..k + 1]))
  {
    var before := Distinct(requests[..k]);
    assert requests[..k + 1][..k] == requests[..k];
    if Contains(was, c) {
      var i :| 0 <= i < |was| && Same(was[i].key, c);
      assert Same(before[i], requests[k]);
    } else {
      forall i | 0 <= i < |before| ensures !Same(before[i], requests[k]) {
        assert !Same(was[i].key, c);
      }
      assert now[|was|].key.id == |was|;
    }
  }

  /** Since equality ignores the class of a register, a condition on a global register gets the number of the
      condition on the local register with the same name. */
  lemma ClassesAreConfused(name: string, constant: Operand, opcode: Efsm.Comparison)
    requires constant.Constant?
    ensures var onLocal, onGlobal :=
      Condition(0, Register(LocalRegister, name), constant, opcode),
      Condition(0, Register(GlobalRegister, name), constant, opcode);
      onLocal != onGlobal && Distinct([onLocal, onGlobal]) == [onLocal]
  {
    var onLocal, onGlobal :=
      Condition(0, Register(LocalRegister, name), constant, opcode),
      Condition(0, Register(GlobalRegister, name), constant, opcode);
    var requests := [onLocal, onGlobal];
    assert requests[..1] == [onLocal] && requests[..1][..0] == [];
    assert Distinct([onLocal]) == [onLocal];
    assert Same(Distinct([onLocal])[0], onGlobal);
  }

  /** Every request is listed as it is, identifier aside. */
  predicate ListedAsRequested(requests: seq<Condition>) {
    forall k, i :: 0 <= k < |requests| && 0 <= i < |Distinct(requests)| && Same(Distinct(requests)[i], requests[k]) ==>
      Identical(Distinct(requests)[i], requests[k])
  }

  /** No two requests that count as equal differ in the class of an operand. */
  predicate ClassesDistinguished(requests: seq<Condition>) {
    forall k, m :: 0 <= k < |requests| && 0 <= m < |requests| && Same(requests[k], requests[m]) ==>
      Identical(requests[k], requests[m])
  }

  predicate Identical(c: Condition, d: Condition) { c.op0 == d.op0 && c.op1 == d.op1 && c.opcode == d.opcode }

  lemma {:induction false} DistinctAreRequests(requests: seq<Condition>, i: nat)
    requires i < |Distinct(requests)|
    ensures exists k :: 0 <= k < |requests| && Identical(Distinct(requests)[i], requests[k])
    decreases |requests|
  {
    var front := requests[..|requests| - 1];
    if i < |Distinct(front)| {
      DistinctAreRequests(front, i);
      var k :| 0 <= k < |front| && Identical(Distinct(front)[i], front[k]);
      assert Identical(Distinct(requests)[i], requests[k]);
    } else {
      assert Identical(Distinct(requests)[i], requests[|requests| - 1]);
    }
  }

  /** The listed condition is the requested one for all requests exactly when no two requests are confused. */
  lemma InterningIsExact(requests: seq<Condition>)
    ensures ListedAsRequested(requests) <==> ClassesDistinguished(requests)
  {
    var listed := Distinct(requests);
    if ClassesDistinguished(requests) {
      forall k, i | 0 <= k < |requests| && 0 <= i < |listed| && Same(listed[i], requests[k])
        ensures Identical(listed[i], requests[k]) {
        DistinctAreRequests(requests, i);
        var m :| 0 <= m < |requests| && Identical(listed[i], requests[m]);
        assert Same(requests[m], requests[k]);
      }
    }
    if ListedAsRequested(requests) {
      forall k, m | 0 <= k < |requests| && 0 <= m < |requests| && Same(requests[k], requests[m])
        ensures Identical(requests[k], requests[m]) {
        DistinctCovers(requests, k);
        var i :| 0 <= i < |listed| && Same(listed[i], requests[k]);
        SameIsEquivalence(listed[i], requests[k], requests[m]);
      }
    }
  }
}
