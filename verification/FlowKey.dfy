/** The flow key: words read from header fields and put into canonical order for bidirectional flows. */
module FlowKey {
  import opened Bytes
  import opened Packet
  import opened Headers

  const KEY_WORDS: nat := 8

  /** A key of eight 32-bit words. */
  type Key = k: seq<nat> | |k| == KEY_WORDS witness [0, 0, 0, 0, 0, 0, 0, 0]

  const ZERO_KEY: Key := [0, 0, 0, 0, 0, 0, 0, 0]

  /** Which fields make up the key and how many leading pairs are bidirectional. Each field is stored as 64
      bits, so the last of at most seven fields also overwrites the word behind it. */
  datatype KeySpec = KeySpec(fields: seq<HdrField>, pairs: nat) {
    predicate Valid() { |fields| < KEY_WORDS && 2 * pairs <= KEY_WORDS }
  }

  // ---------------------------------------------------------------- canonical order

  /** One pair in ascending order. */
  function SortPair(key: Key, p: nat): Key
    requires 2 * p + 1 < KEY_WORDS
  {
    if key[2 * p] > key[2 * p + 1] then key[2 * p := key[2 * p + 1]][2 * p + 1 := key[2 * p]] else key
  }

  /** The first `n` pairs in ascending order. */
  function Canonical(key: Key, n: nat): Key
    requires 2 * n <= KEY_WORDS
    decreases n
  {
    if n == 0 then key else SortPair(Canonical(key, n - 1), n - 1)
  }

  /** Two keys hold the same two words in pair `p`, in the same or the opposite order. */
  predicate SamePair(k: Key, l: Key, p: nat)
    requires 2 * p + 1 < KEY_WORDS
  {
    (k[2 * p] == l[2 * p] && k[2 * p + 1] == l[2 * p + 1]) || (k[2 * p] == l[2 * p + 1] && k[2 * p + 1] == l[2 * p])
  }

  /** Two keys of the same bidirectional flow: equal up to swapping inside the covered pairs. */
  predicate SameFlow(k: Key, l: Key, n: nat)
    requires 2 * n <= KEY_WORDS
  {
    (forall p: nat :: p < n ==> SamePair(k, l, p)) && k[2 * n..] == l[2 * n..]
  }

  predicate Sorted(k: Key, n: nat)
    requires 2 * n <= KEY_WORDS
  {
    forall p: nat :: p < n ==> k[2 * p] <= k[2 * p + 1]
  }

  /** Sorting one pair touches no other word, and leaves the two words of the pair in order. */
  lemma PairSorted(c: Key, p: nat)
    requires 2 * p + 1 < KEY_WORDS
    ensures SamePair(c, SortPair(c, p), p) && SortPair(c, p)[2 * p] <= SortPair(c, p)[2 * p + 1]
    ensures forall i :: 0 <= i < KEY_WORDS && i != 2 * p && i != 2 * p + 1 ==> SortPair(c, p)[i] == c[i]
  {
  }

  lemma OneMorePair(k: Key, c: Key, n: nat)
    requires n > 0 && 2 * n <= KEY_WORDS && Sorted(c, n - 1) && SameFlow(k, c, n - 1)
    ensures Sorted(SortPair(c, n - 1), n) && SameFlow(k, SortPair(c, n - 1), n)
  {
    hide SortPair;
    var d := SortPair(c, n - 1);
    PairSorted(c, n - 1);
    LaterWords(k, c, 2 * (n - 1));
    LaterWords(k, d, 2 * n);
    forall p: nat | p < n ensures SamePair(k, d, p) && d[2 * p] <= d[2 * p + 1] {
      assert p < n - 1 ==> SamePair(k, c, p) && c[2 * p] <= c[2 * p + 1];
    }
  }

  /** The loop sorts the covered pairs and keeps their contents and all later words. */
  lemma {:induction false} CanonicalSorts(k: Key, n: nat)
    requires 2 * n <= KEY_WORDS
    ensures Sorted(Canonical(k, n), n) && SameFlow(k, Canonical(k, n), n)
    decreases n
  {
    hide SortPair, Sorted, SameFlow;
    if n == 0 {
      NoPairs(k);
    } else {
      CanonicalSorts(k, n - 1);
      OneMorePair(k, Canonical(k, n - 1), n);
    }
  }

  lemma NoPairs(k: Key)
    ensures Sorted(k, 0) && SameFlow(k, k, 0)
  {
  }

  /** Sorted keys of one flow are equal. */
  lemma SortedUnique(k: Key, l: Key, n: nat)
    requires 2 * n <= KEY_WORDS && Sorted(k, n) && Sorted(l, n) && SameFlow(k, l, n)
    ensures k == l
  {
    forall i | 0 <= i < KEY_WORDS ensures k[i] == l[i] {
      if i < 2 * n {
        assert SamePair(k, l, i / 2) && k[2 * (i / 2)] <= k[2 * (i / 2) + 1];
      } else {
        assert k[2 * n..][i - 2 * n] == l[2 * n..][i - 2 * n];
      }
    }
  }

  lemma SameFlowSymmetric(k: Key, l: Key, n: nat)
    requires 2 * n <= KEY_WORDS && SameFlow(k, l, n)
    ensures SameFlow(l, k, n)
  {
    forall p: nat | p < n ensures SamePair(l, k, p) {
      assert SamePair(k, l, p);
    }
  }

  lemma SameFlowTransitive(k: Key, l: Key, m: Key, n: nat)
    requires 2 * n <= KEY_WORDS && SameFlow(k, l, n) && SameFlow(l, m, n)
    ensures SameFlow(k, m, n)
  {
    forall p: nat | p < n ensures SamePair(k, m, p) {
      assert SamePair(k, l, p) && SamePair(l, m, p);
    }
  }

  /** Canonicalisation is idempotent and identifies exactly the keys of one bidirectional flow. */
  lemma CanonicalIdentifies(k: Key, l: Key, n: nat)
    requires 2 * n <= KEY_WORDS
    ensures Canonical(Canonical(k, n), n) == Canonical(k, n)
    ensures Canonical(k, n) == Canonical(l, n) <==> SameFlow(k, l, n)
  {
    var c, d, cc := Canonical(k, n), Canonical(l, n), Canonical(Canonical(k, n), n);
    CanonicalSorts(k, n);
    CanonicalSorts(l, n);
    CanonicalSorts(c, n);
    SortedUnique(c, cc, n);
    SameFlowSymmetric(l, d, n);
    SameFlowSymmetric(k, c, n);
    if c == d {
      SameFlowTransitive(k, c, l, n);
    }
    if SameFlow(k, l, n) {
      SameFlowTransitive(c, k, l, n);
      SameFlowTransitive(c, l, d, n);
      SortedUnique(c, d, n);
    }
  }

  // ---------------------------------------------------------------- extraction

  /** Storing the fields from `i` on; a missing field leaves its word as it was. */
  function Extract(key: Key, spec: KeySpec, v: View, i: nat): Key
    requires spec.Valid() && ValidView(v) && i <= |spec.fields|
    decreases |spec.fields| - i
  {
    if i == |spec.fields| then key
    else Extract(Store(key, i, Get(v, spec.fields[i])), spec, v, i + 1)
  }

  /** Storing a 64-bit value at word `i`, low half first. */
  function Store(key: Key, i: nat, value: Option<int>): Key
    requires i + 1 < KEY_WORDS
  {
    match value
    case None => key
    case Some(x) => key[i := x % WORD64 % WORD32][i + 1 := x % WORD64 / WORD32]
  }

  /** The key of a packet, given what the previous extraction left behind. */
  function KeyOf(key: Key, spec: KeySpec, v: View): Key
    requires spec.Valid() && ValidView(v)
  {
    Canonical(Extract(key, spec, v, 0), spec.pairs)
  }

  predicate KeyFieldsPresent(spec: KeySpec, v: View) {
    forall i :: 0 <= i < |spec.fields| ==> Present(v, spec.fields[i])
  }

  /** Beyond the extracted words the key still has what it had. */
  predicate CleanBehind(key: Key, n: nat)
  {
    forall i :: n < i < KEY_WORDS ==> key[i] == 0
  }

  /** When all key fields are present, the words up to the one behind the last field do not depend on the
      previous key. */
  lemma {:induction false} ExtractForgets(k: Key, l: Key, spec: KeySpec, v: View, i: nat)
    requires spec.Valid() && ValidView(v) && i <= |spec.fields| && KeyFieldsPresent(spec, v) && spec.fields != []
    requires forall j :: 0 <= j < KEY_WORDS && (j < i || (j == i && i > 0) || j > |spec.fields|) ==> k[j] == l[j]
    ensures Extract(k, spec, v, i) == Extract(l, spec, v, i)
    ensures forall j :: |spec.fields| < j < KEY_WORDS ==> Extract(k, spec, v, i)[j] == k[j]
    decreases |spec.fields| - i
  {
    if i == |spec.fields| {
      assert forall j :: 0 <= j < KEY_WORDS ==> k[j] == l[j];
      assert k == l;
    } else {
      var x := Get(v, spec.fields[i]);
      ExtractForgets(Store(k, i, x), Store(l, i, x), spec, v, i + 1);
    }
  }

  /** The key of a packet is a function of its fields alone, and the words behind stay clean, when every key
      field is present and the bidirectional pairs cover extracted words only. */
  lemma KeyOfPacket(k: Key, l: Key, spec: KeySpec, v: View)
    requires spec.Valid() && ValidView(v) && KeyFieldsPresent(spec, v) && spec.fields != []
    requires 2 * spec.pairs <= |spec.fields|
    requires CleanBehind(k, |spec.fields|) && CleanBehind(l, |spec.fields|)
    ensures KeyOf(k, spec, v) == KeyOf(l, spec, v) && CleanBehind(KeyOf(k, spec, v), |spec.fields|)
  {
    ExtractForgets(k, l, spec, v, 0);
    var e := Extract(k, spec, v, 0);
    CanonicalSorts(e, spec.pairs);
    forall i | |spec.fields| < i < KEY_WORDS ensures KeyOf(k, spec, v)[i] == 0 {
      assert e[2 * spec.pairs..][i - 2 * spec.pairs] == Canonical(e, spec.pairs)[2 * spec.pairs..][i - 2 * spec.pairs];
    }
  }

  /** The value of a field cut to 32 bits, and what is left of it. */
  function LowWord(x: int): nat { x % 0x1_0000_0000 }

  function HighWord(x: int): nat { x % 0x1_0000_0000_0000_0000 / 0x1_0000_0000 }

  lemma StoredWords(x: int)
    ensures x % WORD64 % WORD32 == LowWord(x) && x % WORD64 / WORD32 == HighWord(x)
  {
    SameLowWord(x);
  }

  /** Word `i` of the key holds the value of key field `i`; when that is missing, what is left of the field before it,
      and when that is missing as well, what it held before. */
  lemma {:induction false} ExtractedWord(key: Key, spec: KeySpec, v: View, from: nat, i: nat)
    requires spec.Valid() && ValidView(v) && from <= |spec.fields| && i < KEY_WORDS
    ensures Extract(key, spec, v, from)[i] ==
      if from <= i < |spec.fields| && Get(v, spec.fields[i]).Some? then LowWord(Get(v, spec.fields[i]).value)
      else if from < i <= |spec.fields| && Get(v, spec.fields[i - 1]).Some?
        then HighWord(Get(v, spec.fields[i - 1]).value)
      else key[i]
    decreases |spec.fields| - from
  {
    hide Get, LowWord, HighWord;
    if from < |spec.fields| {
      var x := Get(v, spec.fields[from]);
      if x.Some? {
        StoredWords(x.value);
      }
      ExtractedWord(Store(key, from, x), spec, v, from + 1, i);
    }
  }

  /** Key fields that fit a word: all but the time stamp. */
  predicate FitsWord(f: HdrField) { Length(f) <= 4 }

  lemma {:induction false} BigEndianBound(s: bytes)
    requires |s| <= 4
    ensures BigEndian(s) < 0x1_0000_0000
    ensures |s| < 4 ==> BigEndian(s) < 0x100_0000
    ensures |s| < 3 ==> BigEndian(s) < 0x1_0000
    ensures |s| < 2 ==> BigEndian(s) < 0x100
    ensures |s| < 1 ==> BigEndian(s) < 1
  {
    if s != [] {
      BigEndianBound(s[..|s| - 1]);
    }
  }

  lemma WordFieldBound(v: View, f: HdrField)
    requires ValidView(v) && Present(v, f) && FitsWord(f)
    ensures Get(v, f).Some? && 0 <= Get(v, f).value < 0x1_0000_0000
  {
    hide BigEndian;
    if InData(f) {
      BigEndianBound(v.data[Offset(f)..Offset(f) + Length(f)]);
    }
  }

  /** The key of a packet that has all key fields: their values in order, then zeros. */
  lemma ExtractedKey(spec: KeySpec, v: View, i: nat)
    requires spec.Valid() && ValidView(v) && KeyFieldsPresent(spec, v) && i < KEY_WORDS
    requires forall j :: 0 <= j < |spec.fields| ==> FitsWord(spec.fields[j])
    ensures i < |spec.fields| ==> Some(Extract(ZERO_KEY, spec, v, 0)[i]) == Get(v, spec.fields[i])
    ensures |spec.fields| <= i ==> Extract(ZERO_KEY, spec, v, 0)[i] == 0
  {
    hide Get, Extract, LowWord, HighWord;
    ExtractedWord(ZERO_KEY, spec, v, 0, i);
    if i < |spec.fields| {
      WordFieldBound(v, spec.fields[i]);
      SmallWord(Get(v, spec.fields[i]).value);
    } else if i == |spec.fields| > 0 {
      WordFieldBound(v, spec.fields[i - 1]);
      SmallWord(Get(v, spec.fields[i - 1]).value);
    }
  }

  lemma SmallWord(x: int)
    requires 0 <= x < 0x1_0000_0000
    ensures LowWord(x) == x && HighWord(x) == 0
  {
  }

  /** The key fields of two packets agree, up to swapping within the bidirectional pairs. */
  predicate FieldsAgree(spec: KeySpec, v: View, w: View)
    requires ValidView(v) && ValidView(w) && 2 * spec.pairs <= |spec.fields|
  {
    (forall p: nat :: p < spec.pairs ==>
      PairAgrees(v, w, spec.fields[2 * p], spec.fields[2 * p + 1])) &&
    forall i :: 2 * spec.pairs <= i < |spec.fields| ==> Get(v, spec.fields[i]) == Get(w, spec.fields[i])
  }

  predicate PairAgrees(v: View, w: View, f: HdrField, g: HdrField)
    requires ValidView(v) && ValidView(w)
  {
    (Get(v, f) == Get(w, f) && Get(v, g) == Get(w, g)) || (Get(v, f) == Get(w, g) && Get(v, g) == Get(w, f))
  }

  /** Two packets belong to the same flow exactly when their key fields agree up to swapping within the pairs. */
  lemma SameKeyExactly(spec: KeySpec, v: View, w: View)
    requires spec.Valid() && 2 * spec.pairs <= |spec.fields| && ValidView(v) && ValidView(w)
    requires KeyFieldsPresent(spec, v) && KeyFieldsPresent(spec, w)
    requires forall j :: 0 <= j < |spec.fields| ==> FitsWord(spec.fields[j])
    ensures KeyOf(ZERO_KEY, spec, v) == KeyOf(ZERO_KEY, spec, w) <==> FieldsAgree(spec, v, w)
  {
    hide Get, Extract, Canonical, KeyFieldsPresent, FitsWord;
    var k, l, n := Extract(ZERO_KEY, spec, v, 0), Extract(ZERO_KEY, spec, w, 0), |spec.fields|;
    CanonicalIdentifies(k, l, spec.pairs);
    forall i: nat | i < KEY_WORDS
      ensures (i < n ==> Some(k[i]) == Get(v, spec.fields[i]) && Some(l[i]) == Get(w, spec.fields[i])) &&
              (n <= i ==> k[i] == l[i] == 0) {
      ExtractedKey(spec, v, i);
      ExtractedKey(spec, w, i);
    }
    forall p: nat | p < spec.pairs
      ensures SamePair(k, l, p) <==> PairAgrees(v, w, spec.fields[2 * p], spec.fields[2 * p + 1]) {
    }
    LaterWords(k, l, 2 * spec.pairs);
  }

  lemma LaterWords(k: Key, l: Key, from: nat)
    requires from <= KEY_WORDS
    ensures k[from..] == l[from..] <==> forall i :: from <= i < KEY_WORDS ==> k[i] == l[i]
  {
    if k[from..] == l[from..] {
      forall i | from <= i < KEY_WORDS ensures k[i] == l[i] {
        assert k[i] == k[from..][i - from] && l[i] == l[from..][i - from];
      }
    }
  }

  // ---------------------------------------------------------------- in place

  /** Puts the leading pairs in ascending order. */
  method Biflow(key: array<nat>, pairs: nat)
    requires key.Length == KEY_WORDS && 2 * pairs <= KEY_WORDS
    modifies key
    ensures key[..] == Canonical(old(key[..]), pairs)
  {
    var i := 0;
    while i < pairs * 2
      invariant 0 <= i <= pairs * 2 && i % 2 == 0
      invariant key[..] == Canonical(old(key[..]), i / 2)
    {
      if key[i] > key[i + 1] {
        var tmp := key[i];
        key[i] := key[i + 1];
        key[i + 1] := tmp;
      }
      i := i + 2;
    }
  }

  /** Extracts the key of the current packet into the buffer that the previous packet used. */
  method KeyExtract(spec: KeySpec, fields: PacketFields, key: array<nat>)
    requires spec.Valid() && fields.Valid() && key.Length == KEY_WORDS
    modifies key
    ensures key[..] == KeyOf(old(key[..]), spec, fields.Seen()) && fields.Valid() && fields.Seen() == old(fields.Seen())
  {
    ghost var v := fields.Seen();
    for i := 0 to |spec.fields|
      invariant fields.Valid() && fields.Seen() == v
      invariant Extract(key[..], spec, v, i) == Extract(old(key[..]), spec, v, 0)
    {
      ghost var was := key[..];
      var value := fields.GetHdrValue(spec.fields[i]);
      if value.Some? {
        var bits: nat := value.value % WORD64;
        key[i] := bits % WORD32;
        key[i + 1] := bits / WORD32;
      }
      assert key[..] == Store(was, i, value);
    }
    if spec.pairs > 0 {
      Biflow(key, spec.pairs);
    }
  }
}
