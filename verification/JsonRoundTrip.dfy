/** Reading back what the printer wrote. */
module JsonRoundTrip {
  import opened Bytes
  import opened JsonText
  import opened JsonGrammar
  import JsonStrings

  /** A value with every string cut at its first NUL, as C code sees it. */
  function Seen(v: Value): Value {
    match v
    case Str(s) => Str(CString(s))
    case Array(items) => Array(SeenItems(items))
    case Object(members) => Object(SeenMembers(members))
    case _ => v
  }

  function SeenItems(items: Items): Items {
    match items
    case NoItem => NoItem
    case Item(v, next) => Item(Seen(v), SeenItems(next))
  }

  function SeenMembers(members: Members): Members {
    match members
    case NoMember => NoMember
    case Member(key, v, next) => Member(CString(key), Seen(v), SeenMembers(next))
  }

  lemma {:induction false} SeenIsSame(v: Value)
    ensures Seen(v) == v <==> NulFreeStrings(v)
    decreases v
  {
    match v
    case Array(items) => SeenItemsIsSame(items);
    case Object(members) => SeenMembersIsSame(members);
    case _ =>
  }

  lemma {:induction false} SeenItemsIsSame(items: Items)
    ensures SeenItems(items) == items <==> NulFreeItems(items)
    decreases items
  {
    if items.Item? {
      SeenIsSame(items.value);
      SeenItemsIsSame(items.next);
    }
  }

  lemma {:induction false} SeenMembersIsSame(members: Members)
    ensures SeenMembers(members) == members <==> NulFreeMembers(members)
    decreases members
  {
    if members.Member? {
      SeenIsSame(members.value);
      SeenMembersIsSame(members.next);
    }
  }

  // ---------------------------------------------------------------- numbers

  lemma {:induction false} ValueOfDigitsOf(n: nat)
    ensures ValueOfDigits(DigitsOf(n)) == n
  {
    if n >= 10 {
      ValueOfDigitsOf(n / 10);
      assert DigitsOf(n)[..|DigitsOf(n)| - 1] == DigitsOf(n / 10);
    } else {
      assert DigitsOf(n)[..0] == [];
    }
  }

  function PowerOfTen(k: nat): nat { if k == 0 then 1 else 10 * PowerOfTen(k - 1) }

  lemma {:induction false} DigitsOfLength(n: nat, k: nat)
    requires 1 <= k && n < PowerOfTen(k)
    ensures |DigitsOf(n)| <= k
    decreases k
  {
    if n >= 10 {
      DigitsOfLength(n / 10, k - 1);
    }
  }

  lemma NumberTextLength(n: int)
    requires -INTEGER_BOUND < n < INTEGER_BOUND
    ensures |NumberText(n)| <= 16
  {
    assert PowerOfTen(15) == INTEGER_BOUND by {
      assert PowerOfTen(5) == 100_000;
      assert PowerOfTen(10) == 10_000_000_000;
    }
    DigitsOfLength(if n < 0 then -n else n, 15);
  }

  lemma {:induction false} RunOver(c: bytes, off: nat, t: bytes, k: nat)
    requires At(c, off, t) && |t| <= k && off + |t| < |c| && !NumberByte(c[off + |t|])
    requires forall i :: 0 <= i < |t| ==> NumberByte(t[i])
    ensures RunEnd(c, off, k) == off + |t|
    decreases k
  {
    if t != [] {
      RunOver(c, off + 1, t[1..], k - 1);
    }
  }

  lemma {:induction false} DigitsToEnd(t: bytes, i: nat)
    requires i <= |t| && forall k :: i <= k < |t| ==> Digit(t[k])
    ensures DigitsEnd(t, i) == |t|
    decreases |t| - i
  {
    if i < |t| {
      DigitsToEnd(t, i + 1);
    }
  }

  /** The C library reads a printed integer completely and as that integer. */
  lemma StrtodNumberText(n: int)
    requires -INTEGER_BOUND < n < INTEGER_BOUND
    ensures Strtod(NumberText(n)) == Some((Number(n), |NumberText(n)|))
  {
    hide DigitsOf, ValueOfDigits, DigitsEnd;
    var t, m := NumberText(n), if n < 0 then -n else n;
    var s := if n < 0 then 1 else 0;
    assert t == (if n < 0 then [MINUS] else []) + DigitsOf(m);
    ValueOfDigitsOf(m);
    DigitsToEnd(t, s);
    assert t[s..|t|] == DigitsOf(m);
  }

  lemma NumberTextBytes(n: int)
    ensures forall i :: 0 <= i < |NumberText(n)| ==> NumberByte(NumberText(n)[i])
  {
    hide DigitsOf;
  }

  lemma ReadNumber(c: bytes, off: nat, n: int)
    requires Terminated(c) && -INTEGER_BOUND < n < INTEGER_BOUND && At(c, off, NumberText(n))
    requires off + |NumberText(n)| < |c| && !NumberByte(c[off + |NumberText(n)|])
    ensures ParseNumber(c, off) == Some((Number(n), off + |NumberText(n)|))
  {
    hide NumberText, At, Strtod, RunEnd, NumberByte;
    NumberTextLength(n);
    NumberTextBytes(n);
    RunOver(c, off, NumberText(n), 63);
    AtIsSlice(c, off, NumberText(n));
    StrtodNumberText(n);
  }

  // ---------------------------------------------------------------- white space

  predicate AllBlank(s: bytes) { s != [] ==> s[0] <= 32 && AllBlank(s[1..]) }

  lemma {:induction false} SkipOver(c: bytes, off: nat, s: bytes)
    requires At(c, off, s) && AllBlank(s) && off + |s| < |c|
    ensures Skip(c, off) == Skip(c, off + |s|)
    decreases |s|
  {
    if s != [] {
      SkipOver(c, off + 1, s[1..]);
    }
  }

  lemma {:induction false} TabsAreBlank(n: nat)
    ensures AllBlank(Tabs(n))
  {
    if n > 0 {
      TabsAreBlank(n - 1);
      assert Tabs(n)[1..] == Tabs(n - 1);
    }
  }

  // ---------------------------------------------------------------- values

  /** How the text of a value begins: not with white space, a bracket that closes or a name of another kind. */
  predicate Head(v: Value, b: byte) {
    b > 32 && b != CLOSE_BRACKET && b != CLOSE_BRACE &&
    match v
    case Null => b == NULL_TEXT[0]
    case False => b == FALSE_TEXT[0]
    case True => b == TRUE_TEXT[0]
    case Number(_) => b == MINUS || Digit(b)
    case Decimal(_) => true
    case Str(_) => b == QUOTE
    case Array(_) => b == OPEN_BRACKET
    case Object(_) => b == OPEN_BRACE
  }

  lemma TextHead(v: Value, fmt: bool, d: nat)
    requires Printable(v)
    ensures Text(v, fmt, d) != [] && Head(v, Text(v, fmt, d)[0])
  {
  }

  /** The byte `b` stands at `i`. */
  predicate ByteAt(c: bytes, i: nat, b: byte) {
    i < |c| && c[i] == b
  }

  /** At `i` stands a byte that is no white space and cannot be mistaken for a closing bracket. */
  predicate Solid(c: bytes, i: nat) {
    i < |c| && c[i] > 32 && c[i] != CLOSE_BRACKET && c[i] != CLOSE_BRACE
  }

  /** Behind a value stands something that cannot continue a number. */
  predicate Ends(c: bytes, end: nat) {
    end < |c| && !NumberByte(c[end])
  }

  /** The result of reading a printed value: the value as C sees it, or nothing when it nests too deeply. */
  function Expected<T>(v: T, end: nat, fits: bool): Option<(T, nat)> {
    if fits then Some((v, end)) else None
  }

  lemma {:induction false} ReadValue(c: bytes, off: nat, v: Value, fmt: bool, d: nat, depth: nat)
    requires Terminated(c) && Printable(v) && depth <= NESTING_LIMIT
    requires At(c, off, Text(v, fmt, d)) && Ends(c, off + |Text(v, fmt, d)|)
    ensures ParseValue(c, off, depth)
         == Expected(Seen(v), off + |Text(v, fmt, d)|, depth + Nesting(v) <= NESTING_LIMIT)
    decreases v, 1
  {
    hide At, Text, Ends, ParseValue, Nesting, Seen;
    NoNesting(v);
    EndsInside(c, off + |Text(v, fmt, d)|);
    match v
    case Array(items) => ReadArray(c, off, items, fmt, d, depth);
    case Object(members) => ReadObject(c, off, members, fmt, d, depth);
    case _ => ReadScalar(c, off, v, fmt, d, depth);
  }

  lemma NoNesting(v: Value)
    ensures !v.Array? && !v.Object? ==> Nesting(v) == 0
  {
  }

  lemma EndsInside(c: bytes, end: nat)
    ensures Ends(c, end) ==> end < |c|
  {
  }

  lemma ReadScalar(c: bytes, off: nat, v: Value, fmt: bool, d: nat, depth: nat)
    requires Terminated(c) && Printable(v) && !v.Array? && !v.Object?
    requires At(c, off, Text(v, fmt, d)) && Ends(c, off + |Text(v, fmt, d)|)
    ensures ParseValue(c, off, depth) == Some((Seen(v), off + |Text(v, fmt, d)|))
  {
    hide ParseNumber, ParseString, Quoted, NumberText, CString;
    TextHead(v, fmt, d);
    AtIndex(c, off, Text(v, fmt, d), 0);
    match v
    case Number(n) => ReadNumber(c, off, n);
    case Str(s) => JsonStrings.ReadQuoted(c, off, s);
    case _ =>
  }

  /** The text of a value starts with something solid. */
  lemma SolidHead(c: bytes, off: nat, v: Value, fmt: bool, d: nat)
    requires Printable(v) && At(c, off, Text(v, fmt, d))
    ensures Solid(c, off) && Skip(c, off) == off
  {
    TextHead(v, fmt, d);
    AtIndex(c, off, Text(v, fmt, d), 0);
  }

  // ---------------------------------------------------------------- one step of the parser

  lemma ArrayStep(c: bytes, off: nat, i: nat, depth: nat)
    requires Terminated(c) && ByteAt(c, off, OPEN_BRACKET) && off + 1 < |c| && Skip(c, off + 1) == i
    ensures depth >= NESTING_LIMIT ==> ParseValue(c, off, depth) == None
    ensures depth < NESTING_LIMIT && ByteAt(c, i, CLOSE_BRACKET) ==>
      ParseValue(c, off, depth) == Some((Array(NoItem), i + 1))
    ensures depth < NESTING_LIMIT && Solid(c, i) ==> ParseValue(c, off, depth) == AsArray(ParseItems(c, i, depth + 1))
  {
  }

  lemma ObjectStep(c: bytes, off: nat, i: nat, depth: nat)
    requires Terminated(c) && ByteAt(c, off, OPEN_BRACE) && off + 1 < |c| && Skip(c, off + 1) == i
    ensures depth >= NESTING_LIMIT ==> ParseValue(c, off, depth) == None
    ensures depth < NESTING_LIMIT && ByteAt(c, i, CLOSE_BRACE) ==>
      ParseValue(c, off, depth) == Some((Object(NoMember), i + 1))
    ensures depth < NESTING_LIMIT && Solid(c, i) ==>
      ParseValue(c, off, depth) == AsObject(ParseMembers(c, i, depth + 1))
  {
  }

  lemma ItemsStep(c: bytes, start: nat, off: nat, depth: nat, i: nat)
    requires Terminated(c) && start < |c| && Skip(c, start) == off
    requires var r := ParseValue(c, off, depth); r.Some? ==> Skip(c, r.value.1) == i
    ensures var r := ParseValue(c, off, depth);
      && (r.None? ==> ParseItems(c, start, depth) == None)
      && (r.Some? && ByteAt(c, i, COMMA) ==>
        i + 1 < |c| && ParseItems(c, start, depth) == WithItem(r.value.0, ParseItems(c, i + 1, depth)))
      && (r.Some? && ByteAt(c, i, CLOSE_BRACKET) ==>
        ParseItems(c, start, depth) == Some((Item(r.value.0, NoItem), i + 1)))
  {
  }

  lemma MembersStep(c: bytes, start: nat, k: nat, key: bytes, colon: nat, val: nat, depth: nat, i: nat)
    requires Terminated(c) && start < |c| && Skip(c, start) == k && ParseString(c, k) == Some((key, colon))
    requires ByteAt(c, colon, COLON) && colon + 1 < |c| && Skip(c, colon + 1) == val
    requires var r := ParseValue(c, val, depth); r.Some? ==> Skip(c, r.value.1) == i
    ensures var r := ParseValue(c, val, depth);
      && (r.None? ==> ParseMembers(c, start, depth) == None)
      && (r.Some? && ByteAt(c, i, COMMA) ==>
        i + 1 < |c| && ParseMembers(c, start, depth) == WithMember(key, r.value.0, ParseMembers(c, i + 1, depth)))
      && (r.Some? && ByteAt(c, i, CLOSE_BRACE) ==>
        ParseMembers(c, start, depth) == Some((Member(key, r.value.0, NoMember), i + 1)))
  {
    hide ParseString, ParseValue;
  }

  // ---------------------------------------------------------------- arrays

  lemma {:induction false} ReadArray(c: bytes, off: nat, items: Items, fmt: bool, d: nat, depth: nat)
    requires Terminated(c) && PrintableItems(items) && depth <= NESTING_LIMIT
    requires At(c, off, Text(Array(items), fmt, d)) && off + |Text(Array(items), fmt, d)| < |c|
    ensures ParseValue(c, off, depth)
         == Expected(Seen(Array(items)), off + |Text(Array(items), fmt, d)|,
           depth + Nesting(Array(items)) <= NESTING_LIMIT)
    decreases items, 1
  {
    hide At, Text, Skip, ByteAt, Solid, ParseValue, ParseItems, PrintableItems;
    var body := ItemsText(items, fmt, d + 1);
    ArrayText(items, fmt, d);
    ArrayParts(c, off, body);
    if items.NoItem? {
      SkipSolid(c, off + 1);
      ArrayStep(c, off, off + 1, depth);
    } else {
      SolidItems(c, off + 1, items, fmt, d + 1);
      ArrayStep(c, off, off + 1, depth);
      if depth < NESTING_LIMIT {
        ReadItems(c, off + 1, off + 1, items, fmt, d + 1, depth + 1);
      }
    }
  }

  lemma ArrayParts(c: bytes, off: nat, body: bytes)
    requires At(c, off, [OPEN_BRACKET] + body + [CLOSE_BRACKET])
    ensures ByteAt(c, off, OPEN_BRACKET) && At(c, off + 1, body) && ByteAt(c, off + 1 + |body|, CLOSE_BRACKET)
  {
    AtConcat(c, off, [OPEN_BRACKET] + body, [CLOSE_BRACKET]);
    AtConcat(c, off, [OPEN_BRACKET], body);
  }

  lemma SkipSolid(c: bytes, i: nat)
    requires i < |c|
    ensures Solid(c, i) || ByteAt(c, i, CLOSE_BRACKET) || ByteAt(c, i, CLOSE_BRACE) || ByteAt(c, i, COMMA) ==>
      Skip(c, i) == i
  {
  }

  lemma SolidItems(c: bytes, off: nat, items: Items, fmt: bool, d: nat)
    requires PrintableItems(items) && items.Item? && At(c, off, ItemsText(items, fmt, d))
    ensures Solid(c, off) && Skip(c, off) == off
  {
    ItemsTextCons(items, fmt, d);
    AtConcat(c, off, Text(items.value, fmt, d),
             if items.next.NoItem? then [] else Separator(fmt) + ItemsText(items.next, fmt, d));
    SolidHead(c, off, items.value, fmt, d);
  }

  lemma {:induction false} ReadItems(c: bytes, start: nat, off: nat, items: Items, fmt: bool, d: nat, depth: nat)
    requires Terminated(c) && PrintableItems(items) && items.Item? && depth <= NESTING_LIMIT
    requires start < |c| && Skip(c, start) == off
    requires At(c, off, ItemsText(items, fmt, d)) && ByteAt(c, off + |ItemsText(items, fmt, d)|, CLOSE_BRACKET)
    ensures ParseItems(c, start, depth)
         == Expected(SeenItems(items), off + |ItemsText(items, fmt, d)| + 1,
           depth + ItemsNesting(items) <= NESTING_LIMIT)
    decreases items, 0
  {
    hide At, Text, ItemsText, Skip, Separator, ParseItems, ParseValue, Nesting, Printable, Seen, Ends, ByteAt;
    var v, next, t := items.value, items.next, Text(items.value, fmt, d);
    var end := off + |t|;
    ItemsTextCons(items, fmt, d);
    if next.NoItem? {
      EndsAtBracket(c, end);
      ReadValue(c, off, v, fmt, d, depth);
      ItemsStep(c, start, off, depth, end);
    } else {
      var s, rest := Separator(fmt), ItemsText(next, fmt, d);
      AtConcat(c, off, t, s + rest);
      AtConcat(c, end, s, rest);
      SkipSeparator(c, end, next, fmt, d);
      ReadValue(c, off, v, fmt, d, depth);
      ReadItems(c, end + 1, end + |s|, next, fmt, d, depth);
      ItemsStep(c, start, off, depth, end);
    }
  }

  lemma EndsAtBracket(c: bytes, i: nat)
    requires ByteAt(c, i, CLOSE_BRACKET)
    ensures Ends(c, i) && Skip(c, i) == i
  {
  }

  /** Behind the comma only the blank of the formatted print is skipped. */
  lemma SkipSeparator(c: bytes, i: nat, next: Items, fmt: bool, d: nat)
    requires PrintableItems(next) && next.Item?
    requires At(c, i, Separator(fmt)) && At(c, i + |Separator(fmt)|, ItemsText(next, fmt, d))
    ensures i + 1 < |c| && ByteAt(c, i, COMMA) && Skip(c, i) == i && Ends(c, i)
    ensures Skip(c, i + 1) == i + |Separator(fmt)|
  {
    SolidItems(c, i + |Separator(fmt)|, next, fmt, d);
    if fmt {
      AtIndex(c, i, Separator(fmt), 1);
    }
  }

  // ---------------------------------------------------------------- objects

  lemma {:induction false} ReadObject(c: bytes, off: nat, members: Members, fmt: bool, d: nat, depth: nat)
    requires Terminated(c) && PrintableMembers(members) && depth <= NESTING_LIMIT
    requires At(c, off, Text(Object(members), fmt, d)) && off + |Text(Object(members), fmt, d)| < |c|
    ensures ParseValue(c, off, depth)
         == Expected(Seen(Object(members)), off + |Text(Object(members), fmt, d)|,
                     depth + Nesting(Object(members)) <= NESTING_LIMIT)
    decreases members, 1
  {
    hide At, Text, Skip, ByteAt, Solid, ParseValue, ParseMembers, PrintableMembers, ObjectOpen, ObjectClose, KeyOpen,
      MembersText;
    var open, body, close := ObjectOpen(fmt), MembersText(members, fmt, d + 1), ObjectClose(fmt, d);
    ObjectText(members, fmt, d);
    NoMembersText(members, fmt, d + 1);
    AtConcat(c, off, open + body, close);
    AtConcat(c, off, open, body);
    SkipOpening(c, off, fmt);
    if members.NoMember? {
      SkipToBrace(c, off + |open|, fmt, d);
      ObjectStep(c, off, off + |open| + |close| - 1, depth);
    } else {
      var k := off + |open| + |KeyOpen(fmt, d + 1)|;
      SkipToKey(c, off + |open|, members, fmt, d + 1);
      ObjectStep(c, off, k, depth);
      if depth < NESTING_LIMIT {
        ReadMembers(c, k, off + |open|, members, fmt, d + 1, depth + 1);
      }
    }
  }

  lemma SkipOpening(c: bytes, off: nat, fmt: bool)
    requires At(c, off, ObjectOpen(fmt)) && off + |ObjectOpen(fmt)| < |c|
    ensures ByteAt(c, off, OPEN_BRACE) && off + 1 < |c| && Skip(c, off + 1) == Skip(c, off + |ObjectOpen(fmt)|)
  {
    AtIndex(c, off, ObjectOpen(fmt), 0);
    if fmt {
      AtIndex(c, off, ObjectOpen(fmt), 1);
    }
  }

  /** Behind the last member only blanks stand before the closing brace. */
  lemma SkipToBrace(c: bytes, i: nat, fmt: bool, d: nat)
    requires At(c, i, ObjectClose(fmt, d)) && i + |ObjectClose(fmt, d)| < |c|
    ensures 1 <= |ObjectClose(fmt, d)|
    ensures Skip(c, i) == i + |ObjectClose(fmt, d)| - 1 && ByteAt(c, i + |ObjectClose(fmt, d)| - 1, CLOSE_BRACE)
  {
    var blanks := if fmt then Tabs(d) else [];
    AtConcat(c, i, blanks, [CLOSE_BRACE]);
    TabsAreBlank(d);
    SkipOver(c, i, blanks);
  }

  /** The parts of the text of a list of members, one behind the other. */
  lemma MemberParts(c: bytes, off: nat, members: Members, fmt: bool, d: nat, t0: bytes, t1: bytes, t2: bytes, t3: bytes)
    requires PrintableMembers(members) && members.Member? && At(c, off, MembersText(members, fmt, d))
    requires t0 == KeyText(members.key, fmt, d) && t1 == Text(members.value, fmt, d)
    requires t2 == MemberClose(members.next.NoMember?, fmt) && t3 == MembersText(members.next, fmt, d)
    ensures At(c, off, t0) && At(c, off + |t0|, t1) && At(c, off + |t0| + |t1|, t2)
    ensures At(c, off + |t0| + |t1| + |t2|, t3)
    ensures |MembersText(members, fmt, d)| == |t0| + |t1| + |t2| + |t3|
  {
    hide *;
    MembersTextCons(members, fmt, d);
    AtConcat(c, off, t0, t1 + (t2 + t3));
    AtConcat(c, off + |t0|, t1, t2 + t3);
    AtConcat(c, off + |t0| + |t1|, t2, t3);
  }

  /** Reading a key: the indentation is skipped, then stand the string, the colon and at most a tab. */
  lemma ReadKey(c: bytes, off: nat, key: bytes, fmt: bool, d: nat) returns (k: nat, colon: nat)
    requires Terminated(c) && At(c, off, KeyText(key, fmt, d))
    ensures k == off + |KeyOpen(fmt, d)| < |c| && ByteAt(c, k, QUOTE) && Solid(c, k) && Skip(c, off) == k == Skip(c, k)
    ensures ParseString(c, k) == Some((CString(key), colon))
    ensures k < colon < |c| && ByteAt(c, colon, COLON)
    ensures var val := off + |KeyText(key, fmt, d)|;
      Solid(c, val) ==> colon + 1 < |c| && Skip(c, colon + 1) == val
  {
    hide Quoted, Text, ParseString;
    var open, quoted, close := KeyOpen(fmt, d), Quoted(key), KeyClose(fmt);
    k := off + |open|;
    colon := k + |quoted|;
    AtConcat(c, off, open, quoted + close);
    AtConcat(c, k, quoted, close);
    JsonStrings.ReadQuoted(c, k, key);
    QuotedHead(key);
    AtIndex(c, k, quoted, 0);
    SkipIndentation(c, off, fmt, d);
    AtIndex(c, colon, close, 0);
    if fmt {
      AtIndex(c, colon, close, 1);
    }
  }

  lemma QuotedHead(s: bytes)
    ensures Quoted(s) != [] && Quoted(s)[0] == QUOTE
  {
  }

  lemma SkipIndentation(c: bytes, off: nat, fmt: bool, d: nat)
    requires At(c, off, KeyOpen(fmt, d)) && ByteAt(c, off + |KeyOpen(fmt, d)|, QUOTE)
    ensures Skip(c, off) == off + |KeyOpen(fmt, d)|
  {
    TabsAreBlank(d);
    SkipOver(c, off, KeyOpen(fmt, d));
  }

  /** Only the indentation stands before a key. */
  lemma SkipToKey(c: bytes, off: nat, members: Members, fmt: bool, d: nat)
    requires Terminated(c) && PrintableMembers(members) && members.Member? && At(c, off, MembersText(members, fmt, d))
    ensures off < |c| && Solid(c, off + |KeyOpen(fmt, d)|)
    ensures Skip(c, off) == off + |KeyOpen(fmt, d)| == Skip(c, off + |KeyOpen(fmt, d)|)
  {
    hide At, Text, Skip, KeyText, ParseString, Solid, ByteAt;
    MemberParts(c, off, members, fmt, d, KeyText(members.key, fmt, d), Text(members.value, fmt, d),
                MemberClose(members.next.NoMember?, fmt), MembersText(members.next, fmt, d));
    var k, colon := ReadKey(c, off, members.key, fmt, d);
  }

  lemma {:induction false} ReadMembers(c: bytes, start: nat, off: nat, members: Members, fmt: bool, d: nat, depth: nat)
    requires Terminated(c) && PrintableMembers(members) && members.Member? && depth <= NESTING_LIMIT && 1 <= d
    requires start < |c| && At(c, off, MembersText(members, fmt, d)) && Skip(c, start) == off + |KeyOpen(fmt, d)|
    requires At(c, off + |MembersText(members, fmt, d)|, ObjectClose(fmt, d - 1))
    requires off + |MembersText(members, fmt, d)| + |ObjectClose(fmt, d - 1)| < |c|
    ensures ParseMembers(c, start, depth)
         == Expected(SeenMembers(members), off + |MembersText(members, fmt, d)| + |ObjectClose(fmt, d - 1)|,
                     depth + MembersNesting(members) <= NESTING_LIMIT)
    decreases members, 0
  {
    hide At, Text, Skip, KeyText, ParseString, ParseValue, ParseMembers, MembersText, ObjectClose, MemberClose,
      KeyOpen, Seen,
         Nesting, Printable, CString, ByteAt, Solid, Ends;
    var key, v, next := members.key, members.value, members.next;
    var t0, t1, t2, t3 :=
      KeyText(key, fmt, d), Text(v, fmt, d), MemberClose(next.NoMember?, fmt), MembersText(next, fmt, d);
    var val, end := off + |t0|, off + |t0| + |t1|;
    NoMembersText(next, fmt, d);
    MemberParts(c, off, members, fmt, d, t0, t1, t2, t3);
    SolidHead(c, val, v, fmt, d);
    var k, colon := ReadKey(c, off, key, fmt, d);
    if next.NoMember? {
      var i := end + |t2| + |ObjectClose(fmt, d - 1)| - 1;
      SkipToClose(c, end, fmt, d - 1);
      ReadValue(c, val, v, fmt, d, depth);
      MembersStep(c, start, k, CString(key), colon, val, depth, i);
    } else {
      SkipToNext(c, end, next, fmt, d);
      ReadValue(c, val, v, fmt, d, depth);
      ReadMembers(c, end + 1, end + |t2|, next, fmt, d, depth);
      MembersStep(c, start, k, CString(key), colon, val, depth, end);
    }
  }

  /** What follows the last value of an object. */
  lemma SkipToClose(c: bytes, end: nat, fmt: bool, d: nat)
    requires At(c, end, MemberClose(true, fmt)) && At(c, end + |MemberClose(true, fmt)|, ObjectClose(fmt, d))
    requires end + |MemberClose(true, fmt)| + |ObjectClose(fmt, d)| < |c|
    ensures Ends(c, end) && 1 <= |ObjectClose(fmt, d)|
    ensures Skip(c, end) == end + |MemberClose(true, fmt)| + |ObjectClose(fmt, d)| - 1
    ensures ByteAt(c, end + |MemberClose(true, fmt)| + |ObjectClose(fmt, d)| - 1, CLOSE_BRACE)
  {
    SkipToBrace(c, end + |MemberClose(true, fmt)|, fmt, d);
    if fmt {
      AtIndex(c, end, MemberClose(true, fmt), 0);
    }
  }

  /** What follows a value when another member comes. */
  lemma SkipToNext(c: bytes, end: nat, next: Members, fmt: bool, d: nat)
    requires Terminated(c) && PrintableMembers(next) && next.Member?
    requires At(c, end, MemberClose(false, fmt)) && At(c, end + |MemberClose(false, fmt)|, MembersText(next, fmt, d))
    ensures Ends(c, end) && ByteAt(c, end, COMMA) && Skip(c, end) == end
    ensures end + 1 < |c| && Skip(c, end + 1) == end + |MemberClose(false, fmt)| + |KeyOpen(fmt, d)|
  {
    hide At, MembersText, KeyOpen, Skip, Solid, PrintableMembers;
    SkipToKey(c, end + |MemberClose(false, fmt)|, next, fmt, d);
    AtIndex(c, end, MemberClose(false, fmt), 0);
    SkipOne(c, end);
    if fmt {
      AtIndex(c, end, MemberClose(false, fmt), 1);
      SkipOne(c, end + 1);
    }
  }

  lemma SkipOne(c: bytes, i: nat)
    requires i + 1 < |c|
    ensures Skip(c, i) == if c[i] <= 32 then Skip(c, i + 1) else i
  {
  }

  // ---------------------------------------------------------------- whole texts

  lemma StartHere(c: bytes, v: Value, fmt: bool)
    requires Terminated(c) && Printable(v) && At(c, 0, Text(v, fmt, 0))
    ensures Start(c) == 0
  {
    TextHead(v, fmt, 0);
    AtIndex(c, 0, Text(v, fmt, 0), 0);
  }

  /** Round trip: the printed text of a value, formatted or not, is read back completely and as that value
      as C sees it, exactly when it nests at most a thousand deep. */
  lemma RoundTrip(v: Value, fmt: bool, requireEnd: bool)
    requires Printable(v)
    ensures Parse(Text(v, fmt, 0) + [NUL], requireEnd)
         == Expected(Seen(v), |Text(v, fmt, 0)|, Nesting(v) <= NESTING_LIMIT)
  {
    hide At, Text, ParseValue, Nesting, Seen, Head;
    var t := Text(v, fmt, 0);
    var c := t + [NUL];
    AtIsSlice(c, 0, t);
    StartHere(c, v, fmt);
    ReadValue(c, 0, v, fmt, 0, 0);
  }
}
