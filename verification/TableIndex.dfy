/** Building the index of a table, one bucket of rows per state, and looking rows up through it. */
module TableIndex {
  import opened Bytes
  import opened Efsm

  const MAX_ENTRIES_FOREACH_STATE: nat := 10

  /** A state and the numbers of its rows. */
  datatype KeyNode = KeyNode(state: nat, entries: seq<nat>)

  /** A state and copies of its rows. */
  datatype HmapEntry = HmapEntry(state: nat, rows: seq<Row>)

  // ---------------------------------------------------------------- specification

  /** The numbers of the rows for a state among the first `n` rows, in order. */
  function RowsOf(rows: seq<Row>, n: nat, state: nat): (r: seq<nat>)
    requires n <= |rows|
    ensures forall k :: 0 <= k < |r| ==> r[k] < n
    decreases n
  {
    if n == 0 then []
    else RowsOf(rows, n - 1, state) + (if rows[n - 1].state == state then [n - 1] else [])
  }

  /** The states in the order of their nodes; state 0 always comes first. */
  function States(rows: seq<Row>, n: nat): (r: seq<nat>)
    requires n <= |rows|
    ensures |r| >= 1 && r[0] == 0
    decreases n
  {
    if n == 0 then [0]
    else
      var before := States(rows, n - 1);
      if rows[n - 1].state in before then before else before + [rows[n - 1].state]
  }

  /** The copies of the rows that a node lists. */
  function Copies(rows: seq<Row>, entries: seq<nat>): (r: seq<Row>)
    requires forall k :: 0 <= k < |entries| ==> entries[k] < |rows|
    ensures |r| == |entries| && forall k :: 0 <= k < |entries| ==> r[k] == rows[entries[k]]
  {
    if entries == [] then [] else [rows[entries[0]]] + Copies(rows, entries[1..])
  }

  /** What the hash of the states can hold. */
  function Indexed(rows: seq<Row>): seq<nat> {
    var states := States(rows, |rows|);
    if |states| <= MAX_ENTRIES_FOREACH_STATE then states else states[..MAX_ENTRIES_FOREACH_STATE]
  }

  /** What looking up through the index finds. */
  function IndexedMatch(rows: seq<Row>, state: nat, results: seq<Outcome>): Option<Row> {
    if state in Indexed(rows) then FirstMatch(rows, state, results) else None
  }

  /** What creating the index demands of a table: no state 255, at most ten rows for a state, and as many
      rows as nodes. */
  predicate Indexable(rows: seq<Row>) {
    (forall i :: 0 <= i < |rows| ==> rows[i].state != STATE_NULL && |rows[i].results| == MAX_CONDITIONS) &&
    (forall i :: 0 <= i < |rows| ==> |RowsOf(rows, |rows|, rows[i].state)| <= MAX_ENTRIES_FOREACH_STATE) &&
    |Indexed(rows)| <= |rows|
  }

  lemma {:induction false} RowsOfGrows(rows: seq<Row>, n: nat, m: nat, state: nat)
    requires n <= m <= |rows|
    ensures |RowsOf(rows, n, state)| <= |RowsOf(rows, m, state)|
    decreases m
  {
    if n < m {
      RowsOfGrows(rows, n, m - 1, state);
    }
  }

  lemma {:induction false} StatesComplete(rows: seq<Row>, n: nat, state: nat)
    requires n <= |rows|
    ensures state !in States(rows, n) ==> RowsOf(rows, n, state) == []
    ensures forall i, j :: 0 <= i < j < |States(rows, n)| ==> States(rows, n)[i] != States(rows, n)[j]
    decreases n
  {
    if n > 0 {
      StatesComplete(rows, n - 1, state);
    }
  }

  lemma MoreStates(rows: seq<Row>, n: nat)
    requires n < |rows|
    ensures States(rows, n + 1)
         == if rows[n].state in States(rows, n) then States(rows, n) else States(rows, n) + [rows[n].state]
    ensures |RowsOf(rows, n + 1, rows[n].state)| == |RowsOf(rows, n, rows[n].state)| + 1
  {
  }

  lemma {:induction false} FewRows(rows: seq<Row>, n: nat, state: nat)
    requires n <= |rows|
    ensures |RowsOf(rows, n, state)| <= n
    ensures 0 < n && rows[0].state == 0 ==> |States(rows, n)| <= n
    decreases n
  {
    if n > 0 {
      FewRows(rows, n - 1, state);
    }
  }

  /** The index can be built for every table of at most ten rows that begins with a row for state 0. */
  lemma SmallTable(rows: seq<Row>)
    requires 0 < |rows| <= MAX_ENTRIES_FOREACH_STATE && rows[0].state == 0
    requires forall i :: 0 <= i < |rows| ==> rows[i].state != STATE_NULL && |rows[i].results| == MAX_CONDITIONS
    ensures Indexable(rows) && |States(rows, |rows|)| <= MAX_ENTRIES_FOREACH_STATE
  {
    hide RowsOf, States;
    FewRows(rows, |rows|, 0);
    forall i | 0 <= i < |rows| ensures |RowsOf(rows, |rows|, rows[i].state)| <= MAX_ENTRIES_FOREACH_STATE {
      FewRows(rows, |rows|, rows[i].state);
    }
  }

  // ---------------------------------------------------------------- a bucket has what the table has

  /** The first row that fits, without looking at states. */
  function FirstFit(bucket: seq<Row>, results: seq<Outcome>): Option<Row> {
    if bucket == [] || results == [] then None
    else if Fits(bucket[0], results) then Some(bucket[0])
    else FirstFit(bucket[1..], results)
  }

  lemma {:induction false} FirstFitConcat(s: seq<Row>, t: seq<Row>, results: seq<Outcome>)
    ensures FirstFit(s + t, results)
         == if FirstFit(s, results).Some? then FirstFit(s, results) else FirstFit(t, results)
  {
    if s == [] {
      assert s + t == t;
    } else {
      assert (s + t)[1..] == s[1..] + t;
      FirstFitConcat(s[1..], t, results);
    }
  }

  lemma {:induction false} FirstMatchConcat(s: seq<Row>, t: seq<Row>, state: nat, results: seq<Outcome>)
    ensures FirstMatch(s + t, state, results)
         == if FirstMatch(s, state, results).Some? then FirstMatch(s, state, results) else FirstMatch(t, state, results)
  {
    if s == [] {
      assert s + t == t;
    } else {
      assert (s + t)[1..] == s[1..] + t;
      FirstMatchConcat(s[1..], t, state, results);
    }
  }

  lemma {:induction false} CopiesConcat(rows: seq<Row>, s: seq<nat>, t: seq<nat>)
    requires forall k :: 0 <= k < |s| ==> s[k] < |rows|
    requires forall k :: 0 <= k < |t| ==> t[k] < |rows|
    ensures Copies(rows, s + t) == Copies(rows, s) + Copies(rows, t)
  {
  }

  lemma CopyOne(rows: seq<Row>, entries: seq<nat>)
    requires |entries| <= 1 && forall k :: 0 <= k < |entries| ==> entries[k] < |rows|
    ensures Copies(rows, entries) == if entries == [] then [] else [rows[entries[0]]]
  {
  }

  /** Scanning the bucket of a state finds the first matching row of the whole table. */
  lemma {:induction false} BucketRefines(rows: seq<Row>, n: nat, state: nat, results: seq<Outcome>)
    requires n <= |rows|
    ensures FirstFit(Copies(rows, RowsOf(rows, n, state)), results) == FirstMatch(rows[..n], state, results)
    decreases n
  {
    hide Copies, FirstFit, FirstMatch, Fits;
    if n == 0 {
      NothingFits(rows, state, results);
    } else {
      BucketRefines(rows, n - 1, state, results);
      BucketStep(rows, n, state, results);
      assert rows[..n] == rows[..n - 1] + [rows[n - 1]];
      FirstMatchConcat(rows[..n - 1], [rows[n - 1]], state, results);
      LastRow(rows[n - 1], state, results);
    }
  }

  lemma NothingFits(rows: seq<Row>, state: nat, results: seq<Outcome>)
    ensures FirstFit(Copies(rows, []), results) == None && FirstMatch(rows[..0], state, results) == None
  {
  }

  /** One more row in the table is at most one more row in the bucket. */
  lemma BucketStep(rows: seq<Row>, n: nat, state: nat, results: seq<Outcome>)
    requires 0 < n <= |rows|
    ensures var before := FirstFit(Copies(rows, RowsOf(rows, n - 1, state)), results);
      FirstFit(Copies(rows, RowsOf(rows, n, state)), results)
      == if before.Some? then before else FirstFit(if rows[n - 1].state == state then [rows[n - 1]] else [], results)
  {
    hide FirstFit, Fits;
    var last: seq<nat> := if rows[n - 1].state == state then [n - 1] else [];
    CopiesConcat(rows, RowsOf(rows, n - 1, state), last);
    FirstFitConcat(Copies(rows, RowsOf(rows, n - 1, state)), Copies(rows, last), results);
    assert Copies(rows, last) == if rows[n - 1].state == state then [rows[n - 1]] else [];
  }

  lemma LastRow(row: Row, state: nat, results: seq<Outcome>)
    ensures FirstMatch([row], state, results) == FirstFit(if row.state == state then [row] else [], results)
  {
  }

  /** When all states fit the hash, the index finds exactly what the table holds. */
  lemma IndexRefines(rows: seq<Row>, state: nat, results: seq<Outcome>)
    requires |States(rows, |rows|)| <= MAX_ENTRIES_FOREACH_STATE
    ensures IndexedMatch(rows, state, results) == FirstMatch(rows, state, results)
    ensures IsFirstMatch(rows, state, results, IndexedMatch(rows, state, results))
  {
    FirstMatchIsFirst(rows, state, results);
    if state !in Indexed(rows) {
      StatesComplete(rows, |rows|, state);
      BucketRefines(rows, |rows|, state, results);
      assert rows[..|rows|] == rows;
    }
  }

  // ---------------------------------------------------------------- the node list

  /** The nodes are those of some states, with their rows among the first `n`. */
  predicate NodesOf(nodes: seq<KeyNode>, states: seq<nat>, rows: seq<Row>, n: nat) {
    n <= |rows| && |nodes| == |states| &&
    forall k :: 0 <= k < |nodes| ==> nodes[k] == KeyNode(states[k], RowsOf(rows, n, states[k]))
  }

  lemma NoRowsYet(rows: seq<Row>)
    ensures NodesOf([KeyNode(0, [])], States(rows, 0), rows, 0)
  {
  }

  lemma NewNode(nodes: seq<KeyNode>, states: seq<nat>, rows: seq<Row>, n: nat, state: nat)
    requires NodesOf(nodes, states, rows, n) && RowsOf(rows, n, state) == []
    ensures NodesOf(nodes + [KeyNode(state, [])], states + [state], rows, n)
  {
    hide RowsOf;
  }

  lemma NewEntry(nodes: seq<KeyNode>, states: seq<nat>, rows: seq<Row>, n: nat, at: nat)
    requires NodesOf(nodes, states, rows, n) && n < |rows| && at < |nodes| && states[at] == rows[n].state
    requires forall i, j :: 0 <= i < j < |states| ==> states[i] != states[j]
    ensures NodesOf(nodes[at := KeyNode(states[at], nodes[at].entries + [n])], states, rows, n + 1)
  {
  }

  /** The list of nodes while the rows are being distributed. */
  class KeyList {
    var nodes: seq<KeyNode>

    constructor ()
      ensures nodes == [KeyNode(0, [])]
    {
      nodes := [KeyNode(0, [])];
    }

    /** The nodes hold the first `n` rows, one node per state. */
    ghost predicate Holds(rows: seq<Row>, n: nat)
      reads this
    {
      n <= |rows| && NodesOf(nodes, States(rows, n), rows, n)
    }

    method SearchKey(state: nat) returns (found: bool)
      ensures found <==> exists k :: 0 <= k < |nodes| && nodes[k].state == state
    {
      for i := 0 to |nodes|
        invariant forall k :: 0 <= k < i ==> nodes[k].state != state
      {
        if nodes[i].state == state {
          return true;
        }
      }
      return false;
    }

    /** Appends a node; the state that stands for "none" overwrites the key of the first node instead. */
    method InsertKey(state: nat)
      requires nodes != []
      modifies this
      ensures state == STATE_NULL ==> nodes == old(nodes)[0 := KeyNode(state, old(nodes)[0].entries)]
      ensures state != STATE_NULL ==> nodes == old(nodes) + [KeyNode(state, [])]
    {
      if state == STATE_NULL {
        nodes := nodes[0 := nodes[0].(state := state)];
        return;
      }
      nodes := nodes + [KeyNode(state, [])];
    }

    /** Adds a row number to the first node for the state, at position `at`; fails when no node has the state. */
    method InsertEntry(id: nat, state: nat) returns (ok: bool, ghost at: nat)
      requires forall k :: 0 <= k < |nodes| && nodes[k].state == state ==>
        |nodes[k].entries| < MAX_ENTRIES_FOREACH_STATE
      modifies this
      ensures !ok ==> nodes == old(nodes) && forall k :: 0 <= k < |nodes| ==> nodes[k].state != state
      ensures ok ==>
        at < |old(nodes)| && old(nodes)[at].state == state &&
        (forall k :: 0 <= k < at ==> old(nodes)[k].state != state) &&
        nodes == old(nodes)[at := KeyNode(state, old(nodes)[at].entries + [id])]
    {
      at := 0;
      for i := 0 to |nodes|
        invariant nodes == old(nodes) && forall k :: 0 <= k < i ==> nodes[k].state != state
      {
        if nodes[i].state == state {
          nodes := nodes[i := KeyNode(state, nodes[i].entries + [id])];
          return true, i;
        }
      }
      ok := false;
    }

    /** Distributes one more row. */
    method Distribute(rows: seq<Row>, n: nat)
      requires n < |rows| && Holds(rows, n) && rows[n].state != STATE_NULL
      requires |RowsOf(rows, n + 1, rows[n].state)| <= MAX_ENTRIES_FOREACH_STATE
      modifies this
      ensures Holds(rows, n + 1)
    {
      hide RowsOf, States;
      var state := rows[n].state;
      MoreStates(rows, n);
      StatesComplete(rows, n, state);
      StatesComplete(rows, n + 1, state);
      RowsOfGrows(rows, n, n + 1, state);
      assert forall k :: 0 <= k < |nodes| ==> States(rows, n)[k] == nodes[k].state;
      var found := SearchKey(state);
      if !found {
        NewNode(nodes, States(rows, n), rows, n, state);
        InsertKey(state);
        assert nodes[|nodes| - 1].state == state;
      }
      ghost var before := nodes;
      var ok, at := InsertEntry(n, state);
      NewEntry(before, States(rows, n + 1), rows, n, at);
    }
  }

  /** The node at position `k` once all rows are distributed. */
  predicate IsNode(rows: seq<Row>, node: KeyNode, k: nat) {
    k < |States(rows, |rows|)| && node.state == States(rows, |rows|)[k] &&
      node.entries == RowsOf(rows, |rows|, node.state)
  }

  // ---------------------------------------------------------------- the hash of the states

  class Index {
    var hmap: map<nat, nat>
    var pool: array<HmapEntry>

    /** The hash leads every indexed state to the copies of its rows. */
    ghost predicate Valid(rows: seq<Row>)
      reads this, pool
    {
      hmap.Keys == (set s | s in Indexed(rows)) &&
      (forall i :: 0 <= i < |rows| ==> |rows[i].results| == MAX_CONDITIONS) &&
      forall s :: s in hmap ==>
        hmap[s] < pool.Length && pool[hmap[s]] == HmapEntry(s, Copies(rows, RowsOf(rows, |rows|, s)))
    }

    /** Builds the index of a table: distributes the rows to nodes, then enters the nodes into the hash until
        it is full. */
    constructor (rows: seq<Row>)
      requires Indexable(rows)
      ensures Valid(rows) && fresh(pool)
    {
      hide RowsOf, Copies, States, Indexed, IsNode;
      var nodes := DistributeAll(rows);
      var hash, table := EnterAll(rows, nodes);
      assert Indexed(rows)[..|Indexed(rows)|] == Indexed(rows);
      hmap := hash;
      pool := table;
    }

    static method DistributeAll(rows: seq<Row>) returns (nodes: seq<KeyNode>)
      requires Indexable(rows)
      ensures |nodes| == |States(rows, |rows|)|
      ensures forall k :: 0 <= k < |nodes| ==> IsNode(rows, nodes[k], k)
    {
      hide RowsOf, States;
      var list := new KeyList();
      NoRowsYet(rows);
      for i := 0 to |rows|
        invariant list.Holds(rows, i)
        invariant fresh(list)
      {
        RowsOfGrows(rows, i + 1, |rows|, rows[i].state);
        list.Distribute(rows, i);
      }
      nodes := list.nodes;
    }

    /** Copies the rows of a node. */
    static method MakeBucket(rows: seq<Row>, node: KeyNode) returns (bucket: seq<Row>)
      requires forall k :: 0 <= k < |node.entries| ==> node.entries[k] < |rows|
      ensures bucket == Copies(rows, node.entries)
    {
      hide Copies;
      CopyOne(rows, []);
      bucket := [];
      for i := 0 to |node.entries|
        invariant bucket == Copies(rows, node.entries[..i])
      {
        CopiesConcat(rows, node.entries[..i], [node.entries[i]]);
        CopyOne(rows, [node.entries[i]]);
        assert node.entries[..i + 1] == node.entries[..i] + [node.entries[i]];
        bucket := bucket + [rows[node.entries[i]]];
      }
      assert node.entries[..|node.entries|] == node.entries;
    }

    /** The first `k` states are in the hash and lead to the copies of their rows. */
    ghost static predicate Entered(rows: seq<Row>, hash: map<nat, nat>, table: array<HmapEntry>, k: nat)
      reads table
    {
      k <= |Indexed(rows)| && |hash| == k && hash.Keys == (set s | s in Indexed(rows)[..k]) &&
      forall s :: s in hash ==>
        hash[s] < table.Length && hash[s] < k && table[hash[s]] == HmapEntry(s, Copies(rows, RowsOf(rows, |rows|, s)))
    }

    /** Enters one node into the hash; a new key gets the next slot. */
    static method EnterNode(rows: seq<Row>, node: KeyNode, k: nat, hash: map<nat, nat>, table: array<HmapEntry>)
      returns (h: map<nat, nat>)
      requires Entered(rows, hash, table, k) && IsNode(rows, node, k)
      requires k < |Indexed(rows)| && Indexed(rows)[k] == node.state && node.state !in Indexed(rows)[..k]
      requires k < table.Length
      modifies table
      ensures Entered(rows, h, table, k + 1)
    {
      hide RowsOf, Copies, States, Indexed;
      var bucket := MakeBucket(rows, node);
      table[k] := HmapEntry(node.state, bucket);
      h := hash[node.state := k];
      NewKey(hash, node.state, k);
      assert Indexed(rows)[..k + 1] == Indexed(rows)[..k] + [node.state];
    }

    /** Enters the nodes into the hash until it is full. */
    static method EnterAll(rows: seq<Row>, nodes: seq<KeyNode>) returns (hash: map<nat, nat>, table: array<HmapEntry>)
      requires Indexable(rows) && |nodes| == |States(rows, |rows|)|
      requires forall k :: 0 <= k < |nodes| ==> IsNode(rows, nodes[k], k)
      ensures fresh(table) && Entered(rows, hash, table, |Indexed(rows)|)
    {
      hide RowsOf, Copies, States;
      table := new HmapEntry[|rows|](_ => HmapEntry(0, []));
      hash := map[];
      StatesComplete(rows, |rows|, 0);
      var k := 0;
      while k < |nodes|
        invariant k <= |nodes| && Entered(rows, hash, table, k)
      {
        if |hash| == MAX_ENTRIES_FOREACH_STATE {
          break;
        }
        assert IsNode(rows, nodes[k], k) && Indexed(rows)[k] == nodes[k].state;
        hash := EnterNode(rows, nodes[k], k, hash, table);
        k := k + 1;
      }
    }

    static lemma NewKey(hash: map<nat, nat>, s: nat, k: nat)
      requires s !in hash
      ensures |hash[s := k]| == |hash| + 1
    {
      assert hash[s := k].Keys == hash.Keys + {s};
      assert |hash| == |hash.Keys| && |hash[s := k]| == |hash[s := k].Keys|;
    }

    /** The row that the table holds for a state and condition results. */
    method Lookup(rows: seq<Row>, state: nat, results: seq<Outcome>) returns (found: Option<Row>)
      requires Valid(rows) && |results| <= MAX_CONDITIONS
      ensures found == IndexedMatch(rows, state, results)
      ensures |States(rows, |rows|)| <= MAX_ENTRIES_FOREACH_STATE ==> IsFirstMatch(rows, state, results, found)
    {
      ghost var complete := |States(rows, |rows|)| <= MAX_ENTRIES_FOREACH_STATE;
      if complete {
        IndexRefines(rows, state, results);
      }
      if state !in hmap {
        return None;
      }
      var entry := pool[hmap[state]];
      assert rows[..|rows|] == rows;
      BucketRefines(rows, |rows|, state, results);
      for index := 0 to |entry.rows|
        invariant FirstFit(entry.rows[index..], results) == FirstFit(entry.rows, results)
      {
        var row := entry.rows[index];
        var fits := RowFits(row, results);
        if fits {
          return Some(row);
        }
      }
      return None;
    }

    /** The scan over the condition results of one row; it only succeeds at the last condition. */
    static method RowFits(row: Row, results: seq<Outcome>) returns (fits: bool)
      requires |results| <= |row.results|
      ensures fits <==> results != [] && Fits(row, results)
    {
      for i := 0 to |results|
        invariant i == |results| ==> results == []
        invariant forall k :: 0 <= k < i ==> row.results[k] == DontCare || row.results[k] == results[k]
      {
        if row.results[i] == DontCare || row.results[i] == results[i] {
          if i == |results| - 1 {
            return true;
          }
        } else {
          return false;
        }
      }
      return false;
    }
  }
}
