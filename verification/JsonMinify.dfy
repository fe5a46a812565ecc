/** The in-place minifier, and what it does to printed text. */
module JsonMinify {
  import opened Bytes
  import opened JsonText
  import opened JsonGrammar
  import opened JsonStrings
  import opened JsonRoundTrip

  predicate Blank(b: byte) {
    b == SPACE || b == TAB || b == RETURN || b == NEWLINE
  }

  /** The end of a line comment that covers `i`. */
  function LineEnd(c: bytes, i: nat): (r: nat)
    requires i <= |c|
    ensures i <= r <= |c| && (i < |c| && c[i] != NEWLINE ==> i < r)
    decreases |c| - i
  {
    if i == |c| || c[i] == NEWLINE then i else LineEnd(c, i + 1)
  }

  /** Where the text continues behind a block comment, found from `i`. */
  function BlockEnd(c: bytes, i: nat): (r: Option<nat>)
    requires i <= |c|
    ensures r.Some? ==> i < r.value <= |c|
    decreases |c| - i
  {
    if i == |c| then None
    else if i + 1 < |c| && c[i] == STAR && c[i + 1] == SLASH then Some(i + 2)
    else BlockEnd(c, i + 1)
  }

  /** The text from `i` without white space and comments outside string literals;
      nothing when a literal or block comment stays open, where the code would run past the terminator. */
  function Minified(c: bytes, i: nat): (r: Option<bytes>)
    requires i <= |c|
    ensures r.Some? ==> |r.value| <= |c| - i
    decreases |c| - i
  {
    if i == |c| then Some([])
    else if Blank(c[i]) then Minified(c, i + 1)
    else if c[i] == SLASH && i + 1 < |c| && c[i + 1] == SLASH then Minified(c, LineEnd(c, i))
    else if c[i] == SLASH && i + 1 < |c| && c[i + 1] == STAR then
      match BlockEnd(c, i)
      case None => None
      case Some(j) => Minified(c, j)
    else if c[i] == QUOTE then
      match ClosingQuote(c, i + 1)
      case None => None
      case Some(j) => Prepend(c[i..j + 1], Minified(c, j + 1))
    else Prepend([c[i]], Minified(c, i + 1))
  }

  // ---------------------------------------------------------------- the in-place algorithm

  /** The buffer `now` of a C string `c`: from `from` on nothing has been overwritten. */
  ghost predicate Unread(now: bytes, was: bytes, c: bytes, from: nat) {
    |now| == |was| && |c| < |was| && c == was[..|c|] && NulFree(c) && was[|c|] == NUL &&
    forall k :: from <= k < |was| ==> now[k] == was[k]
  }

  /** Minifies in place. The write position never overtakes the read position, so every byte is read before
      it is overwritten. */
  method Minify(json: array<byte>, ghost c: bytes) returns (ghost text: bytes)
    requires |c| < json.Length && json[..|c|] == c && json[|c|] == NUL && NulFree(c)
    requires Minified(c, 0).Some?
    modifies json
    ensures Some(text) == Minified(c, 0) && |text| <= |c|
    ensures json[..|text|] == text && json[|text|] == NUL
    ensures json[|text| + 1..] == old(json[|text| + 1..])
  {
    hide LineEnd, BlockEnd, ClosingQuote, Minified, Prepend;
    ghost var was := json[..];
    var into: nat, r: nat := 0, 0;
    PrependNothing(Minified(c, 0));
    assert json[..0] == [];
    while json[r] != NUL
      invariant into <= r <= |c| && Unread(json[..], was, c, into)
      invariant Minified(c, r).Some? && Minified(c, 0) == Prepend(json[..into], Minified(c, r))
      decreases |c| - r
    {
      ghost var done, r0 := json[..into], r;
      MinifiedStep(c, r, done);
      if Blank(json[r]) {
        r := r + 1;
      } else if json[r] == SLASH && json[r + 1] == SLASH {
        r := SkipLine(json, r, was, c);
      } else if json[r] == SLASH && json[r + 1] == STAR {
        r := SkipBlock(json, r, was, c);
      } else if json[r] == QUOTE {
        into, r := CopyString(json, into, r, was, c);
      } else {
        into, r := CopyByte(json, into, r, was, c);
      }
    }
    MinifiedEnd(c, json[..into]);
    json[into] := NUL;
    text := json[..into];
    assert json[into + 1..] == was[into + 1..];
  }

  predicate CommentAt(c: bytes, i: nat)
    requires i < |c|
  {
    c[i] == SLASH && i + 1 < |c| && (c[i + 1] == SLASH || c[i + 1] == STAR)
  }

  /** What the next byte does to the text still to be minified, when `done` has been written. */
  lemma MinifiedStep(c: bytes, i: nat, done: bytes)
    requires i < |c| && Minified(c, i).Some?
    ensures Blank(c[i]) ==> Minified(c, i) == Minified(c, i + 1)
    ensures c[i] == SLASH && i + 1 < |c| && c[i + 1] == SLASH ==> Minified(c, i) == Minified(c, LineEnd(c, i))
    ensures c[i] == SLASH && i + 1 < |c| && c[i + 1] == STAR ==>
      BlockEnd(c, i).Some? && Minified(c, i) == Minified(c, BlockEnd(c, i).value)
    ensures c[i] == QUOTE ==> ClosingQuote(c, i + 1).Some?
    ensures c[i] == QUOTE ==>
      var j := ClosingQuote(c, i + 1).value + 1;
      Minified(c, j).Some? && Prepend(done, Minified(c, i)) == Prepend(done + c[i..j], Minified(c, j))
    ensures !Blank(c[i]) && c[i] != QUOTE && !CommentAt(c, i) ==>
      Minified(c, i + 1).Some? && Prepend(done, Minified(c, i)) == Prepend(done + c[i..i + 1], Minified(c, i + 1))
  {
    hide LineEnd, BlockEnd, ClosingQuote;
    if c[i] == QUOTE {
      var j := ClosingQuote(c, i + 1).value + 1;
      PrependPrepend(done, c[i..j], Minified(c, j));
    } else {
      assert c[i..i + 1] == [c[i]];
      PrependPrepend(done, c[i..i + 1], Minified(c, i + 1));
    }
  }

  lemma MinifiedEnd(c: bytes, done: bytes)
    ensures Prepend(done, Minified(c, |c|)) == Some(done)
  {
    PrependEmpty(done);
  }

  method SkipLine(json: array<byte>, start: nat, ghost was: bytes, ghost c: bytes) returns (r: nat)
    requires start <= |c| && Unread(json[..], was, c, start)
    ensures r == LineEnd(c, start)
  {
    r := start;
    while json[r] != NUL && json[r] != NEWLINE
      invariant start <= r <= |c| && LineEnd(c, r) == LineEnd(c, start)
      decreases |c| - r
    {
      r := r + 1;
    }
  }

  method SkipBlock(json: array<byte>, start: nat, ghost was: bytes, ghost c: bytes) returns (r: nat)
    requires start <= |c| && Unread(json[..], was, c, start)
    requires BlockEnd(c, start).Some?
    ensures Some(r) == BlockEnd(c, start)
  {
    r := start;
    while json[r] != NUL && !(json[r] == STAR && json[r + 1] == SLASH)
      invariant start <= r <= |c| && BlockEnd(c, r) == BlockEnd(c, start)
      decreases |c| - r
    {
      r := r + 1;
    }
    r := r + 2;
  }

  method CopyByte(json: array<byte>, to: nat, from: nat, ghost was: bytes, ghost c: bytes) returns (into: nat, r: nat)
    requires to <= from < |c| && Unread(json[..], was, c, to)
    modifies json
    ensures into == to + 1 && r == from + 1 && Unread(json[..], was, c, into)
    ensures json[..into] == old(json[..to]) + c[from..r]
  {
    json[to] := json[from];
    into, r := to + 1, from + 1;
  }

  /** Copies one character of a literal, a backslash together with the byte behind it. */
  method CopyCharacter(json: array<byte>, to: nat, from: nat, ghost was: bytes, ghost c: bytes)
    returns (into: nat, r: nat)
    requires to <= from < |c| && Unread(json[..], was, c, to)
    requires c[from] != QUOTE && ClosingQuote(c, from).Some?
    modifies json
    ensures from < r <= |c| && into == to + (r - from) && Unread(json[..], was, c, into)
    ensures json[..into] == old(json[..to]) + c[from..r]
    ensures ClosingQuote(c, r) == ClosingQuote(c, from)
  {
    if json[from] == BACKSLASH {
      into, r := CopyByte(json, to, from, was, c);
      into, r := CopyByte(json, into, r, was, c);
      JoinSlices(old(json[..to]), c, from, from + 1, r);
    } else {
      into, r := CopyByte(json, to, from, was, c);
    }
  }

  lemma JoinSlices(s: bytes, c: bytes, i: nat, j: nat, k: nat)
    requires i <= j <= k <= |c|
    ensures s + c[i..j] + c[j..k] == s + c[i..k]
  {
  }

  method CopyString(json: array<byte>, to: nat, from: nat, ghost was: bytes, ghost c: bytes) returns (into: nat, r: nat)
    requires to <= from < |c| && Unread(json[..], was, c, to)
    requires c[from] == QUOTE && ClosingQuote(c, from + 1).Some?
    modifies json
    ensures Some(r - 1) == ClosingQuote(c, from + 1) && from < r && into == to + (r - from)
    ensures Unread(json[..], was, c, into)
    ensures json[..into] == old(json[..to]) + c[from..r]
  {
    into, r := CopyByte(json, to, from, was, c);
    while json[r] != NUL && json[r] != QUOTE
      invariant from < r <= |c| && into == to + (r - from) && Unread(json[..], was, c, into)
      invariant json[..into] == old(json[..to]) + c[from..r]
      invariant ClosingQuote(c, r) == ClosingQuote(c, from + 1)
      decreases |c| - r
    {
      ghost var r0 := r;
      into, r := CopyCharacter(json, into, r, was, c);
      JoinSlices(old(json[..to]), c, from, r0, r);
    }
    ghost var r0 := r;
    into, r := CopyByte(json, into, r, was, c);
    JoinSlices(old(json[..to]), c, from, r0, r);
  }

  // ---------------------------------------------------------------- minifying printed text

  /** Minifying from `i` writes `out` and then goes on from `j`. */
  predicate Shrinks(c: bytes, i: nat, out: bytes, j: nat) {
    i <= |c| && j <= |c| && Minified(c, i) == Prepend(out, Minified(c, j))
  }

  lemma Compose(c: bytes, i: nat, s: bytes, j: nat, t: bytes, k: nat)
    requires Shrinks(c, i, s, j) && Shrinks(c, j, t, k)
    ensures Shrinks(c, i, s + t, k)
  {
    PrependPrepend(s, t, Minified(c, k));
  }

  predicate Ordinary(s: bytes) {
    s != [] ==> !Blank(s[0]) && s[0] != QUOTE && s[0] != SLASH && Ordinary(s[1..])
  }

  predicate Blanks(s: bytes) {
    s != [] ==> Blank(s[0]) && Blanks(s[1..])
  }

  lemma {:induction false} ShrinkOrdinary(c: bytes, i: nat, s: bytes)
    requires At(c, i, s) && Ordinary(s)
    ensures Shrinks(c, i, s, i + |s|)
    decreases |s|
  {
    if s == [] {
      PrependNothing(Minified(c, i));
    } else {
      ShrinkOrdinary(c, i + 1, s[1..]);
      assert s == [s[0]] + s[1..];
      Compose(c, i, [s[0]], i + 1, s[1..], i + |s|);
    }
  }

  lemma {:induction false} ShrinkBlanks(c: bytes, i: nat, s: bytes)
    requires At(c, i, s) && Blanks(s)
    ensures Shrinks(c, i, [], i + |s|)
    decreases |s|
  {
    if s == [] {
      PrependNothing(Minified(c, i));
    } else {
      ShrinkBlanks(c, i + 1, s[1..]);
    }
  }

  /** A quoted string is its escaped contents between quotes. */
  lemma QuotedParts(c: bytes, i: nat, s: bytes, inner: bytes)
    requires At(c, i, Quoted(s)) && inner == Escape(CString(s))
    ensures i + 1 + |inner| < |c| && c[i] == QUOTE && c[i + 1 + |inner|] == QUOTE
    ensures At(c, i + 1, inner) && |Quoted(s)| == |inner| + 2 && c[i..i + |Quoted(s)|] == Quoted(s)
  {
    hide Escape, At, CString;
    AtIsSlice(c, i, Quoted(s));
    AtConcat(c, i, [QUOTE] + inner, [QUOTE]);
    AtConcat(c, i, [QUOTE], inner);
    AtIndex(c, i, [QUOTE], 0);
    AtIndex(c, i + 1 + |inner|, [QUOTE], 0);
  }

  lemma ShrinkQuoted(c: bytes, i: nat, s: bytes)
    requires At(c, i, Quoted(s))
    ensures Shrinks(c, i, Quoted(s), i + |Quoted(s)|)
  {
    hide Escape, At, Quoted, Spelled, AllLegal, AllFormed, PiecesOf, CString, ClosingQuote, Shrinks;
    var inner := Escape(CString(s));
    QuotedParts(c, i, s, inner);
    EscapeIsSpelled(c, i + 1, CString(s));
    LegalIsFormed(PiecesOf(CString(s)));
    ClosingQuoteOver(c, i + 1, PiecesOf(CString(s)), i + 1 + |inner|);
    LiteralStep(c, i, i + 1 + |inner|);
  }

  lemma EndsAtQuote(c: bytes, end: nat)
    requires end < |c| && c[end] == QUOTE
    ensures ClosingQuote(c, end) == Some(end)
  {
  }

  lemma AtQuote(c: bytes, i: nat, end: nat)
    requires i < end < |c| && c[i] == QUOTE && ClosingQuote(c, i + 1) == Some(end)
    ensures Minified(c, i) == Prepend(c[i..end + 1], Minified(c, end + 1))
  {
    hide ClosingQuote, Prepend, BlockEnd, LineEnd;
  }

  /** A literal is copied as it stands. */
  lemma LiteralStep(c: bytes, i: nat, end: nat)
    requires i < end < |c| && c[i] == QUOTE && c[end] == QUOTE && ClosingQuote(c, i + 1) == ClosingQuote(c, end)
    ensures Shrinks(c, i, c[i..end + 1], end + 1)
  {
    hide Minified, Prepend, ClosingQuote;
    EndsAtQuote(c, end);
    AtQuote(c, i, end);
  }

  lemma {:induction false} DigitsAreOrdinary(s: bytes)
    requires forall k :: 0 <= k < |s| ==> Digit(s[k])
    ensures Ordinary(s)
  {
    if s != [] {
      DigitsAreOrdinary(s[1..]);
    }
  }

  lemma ScalarIsOrdinary(v: Value, fmt: bool, d: nat)
    requires Printable(v) && !v.Array? && !v.Object? && !v.Str?
    ensures Ordinary(Text(v, fmt, d))
  {
    match v
    case Number(n) =>
      DigitsAreOrdinary(DigitsOf(if n < 0 then -n else n));
      assert n < 0 ==> NumberText(n)[1..] == DigitsOf(-n);
    case Null => NamesAreOrdinary();
    case False => NamesAreOrdinary();
    case True => NamesAreOrdinary();
  }

  lemma NamesAreOrdinary()
    ensures Ordinary(NULL_TEXT) && Ordinary(FALSE_TEXT) && Ordinary(TRUE_TEXT)
  {
    assert Ordinary(NULL_TEXT[3..]) && Ordinary(NULL_TEXT[2..]) && Ordinary(NULL_TEXT[1..]);
    assert FALSE_TEXT[4..] == [101] && FALSE_TEXT[3..] == [115, 101];
    assert Ordinary(FALSE_TEXT[3..]);
    assert FALSE_TEXT[2..][1..] == FALSE_TEXT[3..] && FALSE_TEXT[1..][1..] == FALSE_TEXT[2..];
  }

  lemma {:induction false} TabsAreBlanks(n: nat)
    ensures Blanks(Tabs(n))
  {
    if n > 0 {
      TabsAreBlanks(n - 1);
      assert Tabs(n)[1..] == Tabs(n - 1);
    }
  }

  /** Minifying the print of a value, formatted or not, writes its unformatted print. */
  lemma {:induction false} ShrinkValue(c: bytes, i: nat, v: Value, fmt: bool, d: nat, e: nat)
    requires Printable(v) && At(c, i, Text(v, fmt, d))
    ensures Shrinks(c, i, Text(v, false, e), i + |Text(v, fmt, d)|)
    decreases v, 1
  {
    hide Text, At, Shrinks;
    match v
    case Array(items) => ShrinkArray(c, i, items, fmt, d, e);
    case Object(members) => ShrinkObject(c, i, members, fmt, d, e);
    case _ => ShrinkScalar(c, i, v, fmt, d, e);
  }

  lemma ShrinkScalar(c: bytes, i: nat, v: Value, fmt: bool, d: nat, e: nat)
    requires Printable(v) && !v.Array? && !v.Object? && At(c, i, Text(v, fmt, d))
    ensures Shrinks(c, i, Text(v, false, e), i + |Text(v, fmt, d)|)
  {
    hide Quoted, NumberText, Ordinary, At, Shrinks;
    if v.Str? {
      ShrinkQuoted(c, i, v.s);
    } else {
      ScalarIsOrdinary(v, fmt, d);
      ShrinkOrdinary(c, i, Text(v, fmt, d));
    }
  }

  lemma {:induction false} ShrinkArray(c: bytes, i: nat, items: Items, fmt: bool, d: nat, e: nat)
    requires PrintableItems(items) && At(c, i, Text(Array(items), fmt, d))
    ensures Shrinks(c, i, Text(Array(items), false, e), i + |Text(Array(items), fmt, d)|)
    decreases items, 1
  {
    hide Text, ItemsText, At, Shrinks, PrintableItems;
    var body, flat := ItemsText(items, fmt, d + 1), ItemsText(items, false, e + 1);
    ArrayText(items, fmt, d);
    ArrayText(items, false, e);
    AtConcat(c, i, [OPEN_BRACKET] + body, [CLOSE_BRACKET]);
    AtConcat(c, i, [OPEN_BRACKET], body);
    ShrinkOrdinary(c, i, [OPEN_BRACKET]);
    ShrinkItems(c, i + 1, items, fmt, d + 1, e + 1);
    ShrinkOrdinary(c, i + 1 + |body|, [CLOSE_BRACKET]);
    Compose(c, i, [OPEN_BRACKET], i + 1, flat, i + 1 + |body|);
    Compose(c, i, [OPEN_BRACKET] + flat, i + 1 + |body|, [CLOSE_BRACKET], i + 2 + |body|);
  }

  lemma {:induction false} ShrinkItems(c: bytes, i: nat, items: Items, fmt: bool, d: nat, e: nat)
    requires PrintableItems(items) && At(c, i, ItemsText(items, fmt, d))
    ensures Shrinks(c, i, ItemsText(items, false, e), i + |ItemsText(items, fmt, d)|)
    decreases items, 0
  {
    hide Text, ItemsText, At, Shrinks, Separator, Printable;
    NoItemsText(items, fmt, d);
    NoItemsText(items, false, e);
    if items.NoItem? {
      ShrinkNothing(c, i);
    } else {
      var t, flat := Text(items.value, fmt, d), Text(items.value, false, e);
      ItemsTextCons(items, fmt, d);
      ItemsTextCons(items, false, e);
      if items.next.NoItem? {
        ShrinkValue(c, i, items.value, fmt, d, e);
      } else {
        var s, rest, flatRest := Separator(fmt), ItemsText(items.next, fmt, d), ItemsText(items.next, false, e);
        AtConcat(c, i, t, s + rest);
        AtConcat(c, i + |t|, s, rest);
        ShrinkValue(c, i, items.value, fmt, d, e);
        ShrinkSeparator(c, i + |t|, fmt);
        ShrinkItems(c, i + |t| + |s|, items.next, fmt, d, e);
        Compose(c, i + |t|, Separator(false), i + |t| + |s|, flatRest, i + |t| + |s| + |rest|);
        Compose(c, i, flat, i + |t|, Separator(false) + flatRest, i + |t| + |s| + |rest|);
      }
    }
  }

  lemma ShrinkNothing(c: bytes, i: nat)
    requires i <= |c|
    ensures Shrinks(c, i, [], i)
  {
    PrependNothing(Minified(c, i));
  }

  /** An ordinary byte, possibly followed by one blank in the formatted print. */
  lemma ShrinkWithBlank(c: bytes, i: nat, b: byte, blank: byte, fmt: bool)
    requires At(c, i, if fmt then [b, blank] else [b])
    requires !Blank(b) && b != QUOTE && b != SLASH && Blank(blank)
    ensures Shrinks(c, i, [b], if fmt then i + 2 else i + 1)
  {
    if fmt {
      AtIndex(c, i, [b, blank], 1);
      assert Minified(c, i + 1) == Minified(c, i + 2);
    }
    assert Minified(c, i) == Prepend([b], Minified(c, i + 1));
  }

  lemma ShrinkSeparator(c: bytes, i: nat, fmt: bool)
    requires At(c, i, Separator(fmt))
    ensures Shrinks(c, i, Separator(false), i + |Separator(fmt)|)
  {
    ShrinkWithBlank(c, i, COMMA, SPACE, fmt);
  }

  lemma {:induction false} ShrinkObject(c: bytes, i: nat, members: Members, fmt: bool, d: nat, e: nat)
    requires PrintableMembers(members) && At(c, i, Text(Object(members), fmt, d))
    ensures Shrinks(c, i, Text(Object(members), false, e), i + |Text(Object(members), fmt, d)|)
    decreases members, 1
  {
    hide Text, MembersText, At, Shrinks, PrintableMembers, ObjectOpen, ObjectClose;
    var open, body, close := ObjectOpen(fmt), MembersText(members, fmt, d + 1), ObjectClose(fmt, d);
    var flat := MembersText(members, false, e + 1);
    ObjectText(members, fmt, d);
    ObjectText(members, false, e);
    AtConcat(c, i, open + body, close);
    AtConcat(c, i, open, body);
    ShrinkOpen(c, i, fmt);
    ShrinkMembers(c, i + |open|, members, fmt, d + 1, e + 1);
    ShrinkClose(c, i + |open| + |body|, fmt, d, e);
    Compose(c, i, ObjectOpen(false), i + |open|, flat, i + |open| + |body|);
    Compose(c, i, ObjectOpen(false) + flat, i + |open| + |body|, ObjectClose(false, e), i + |open| + |body| + |close|);
  }

  lemma ShrinkOpen(c: bytes, i: nat, fmt: bool)
    requires At(c, i, ObjectOpen(fmt))
    ensures Shrinks(c, i, ObjectOpen(false), i + |ObjectOpen(fmt)|)
  {
    ShrinkWithBlank(c, i, OPEN_BRACE, NEWLINE, fmt);
  }

  /** Indentation disappears. */
  lemma ShrinkTabs(c: bytes, i: nat, fmt: bool, d: nat)
    requires At(c, i, KeyOpen(fmt, d))
    ensures Shrinks(c, i, [], i + |KeyOpen(fmt, d)|)
  {
    TabsAreBlanks(d);
    ShrinkBlanks(c, i, KeyOpen(fmt, d));
  }

  lemma ShrinkClose(c: bytes, i: nat, fmt: bool, d: nat, e: nat)
    requires At(c, i, ObjectClose(fmt, d))
    ensures Shrinks(c, i, ObjectClose(false, e), i + |ObjectClose(fmt, d)|)
  {
    AtConcat(c, i, KeyOpen(fmt, d), [CLOSE_BRACE]);
    ShrinkTabs(c, i, fmt, d);
    ShrinkOrdinary(c, i + |KeyOpen(fmt, d)|, [CLOSE_BRACE]);
    Compose(c, i, [], i + |KeyOpen(fmt, d)|, [CLOSE_BRACE], i + |ObjectClose(fmt, d)|);
    var close: bytes := [CLOSE_BRACE];
    assert [] + close == ObjectClose(false, e);
  }

  lemma {:induction false} ShrinkMembers(c: bytes, i: nat, members: Members, fmt: bool, d: nat, e: nat)
    requires PrintableMembers(members) && At(c, i, MembersText(members, fmt, d))
    ensures Shrinks(c, i, MembersText(members, false, e), i + |MembersText(members, fmt, d)|)
    decreases members, 0
  {
    hide Text, MembersText, At, Shrinks, Printable, KeyText, MemberClose;
    NoMembersText(members, fmt, d);
    NoMembersText(members, false, e);
    if members.NoMember? {
      ShrinkNothing(c, i);
    } else {
      var key, v, next, last := members.key, members.value, members.next, members.next.NoMember?;
      var t0, t1, t2, t3 := KeyText(key, fmt, d), Text(v, fmt, d), MemberClose(last, fmt), MembersText(next, fmt, d);
      var f0, f1, f2, f3 :=
        KeyText(key, false, e), Text(v, false, e), MemberClose(last, false), MembersText(next, false, e);
      MembersTextCons(members, false, e);
      MemberParts(c, i, members, fmt, d, t0, t1, t2, t3);
      ShrinkKey(c, i, key, fmt, d, e);
      ShrinkValue(c, i + |t0|, v, fmt, d, e);
      ShrinkMemberClose(c, i + |t0| + |t1|, last, fmt);
      ShrinkMembers(c, i + |t0| + |t1| + |t2|, next, fmt, d, e);
      var j := i + |t0| + |t1| + |t2| + |t3|;
      Compose(c, i + |t0| + |t1|, f2, i + |t0| + |t1| + |t2|, f3, j);
      Compose(c, i + |t0|, f1, i + |t0| + |t1|, f2 + f3, j);
      Compose(c, i, f0, i + |t0|, f1 + (f2 + f3), j);
    }
  }

  lemma ShrinkKey(c: bytes, i: nat, key: bytes, fmt: bool, d: nat, e: nat)
    requires At(c, i, KeyText(key, fmt, d))
    ensures Shrinks(c, i, KeyText(key, false, e), i + |KeyText(key, fmt, d)|)
  {
    hide Quoted, At, Shrinks, Tabs;
    var open, quoted, close := KeyOpen(fmt, d), Quoted(key), KeyClose(fmt);
    AtConcat(c, i, open, quoted + close);
    AtConcat(c, i + |open|, quoted, close);
    ShrinkTabs(c, i, fmt, d);
    ShrinkQuoted(c, i + |open|, key);
    ShrinkWithBlank(c, i + |open| + |quoted|, COLON, TAB, fmt);
    var j := i + |open| + |quoted| + |close|;
    Compose(c, i + |open|, quoted, i + |open| + |quoted|, KeyClose(false), j);
    Compose(c, i, [], i + |open|, quoted + KeyClose(false), j);
    assert KeyText(key, false, e) == [] + (quoted + KeyClose(false));
  }

  lemma ShrinkMemberClose(c: bytes, i: nat, last: bool, fmt: bool)
    requires At(c, i, MemberClose(last, fmt))
    ensures Shrinks(c, i, MemberClose(last, false), i + |MemberClose(last, fmt)|)
  {
    if last {
      assert MemberClose(true, fmt) == if fmt then [NEWLINE] else [];
      ShrinkBlanks(c, i, MemberClose(true, fmt));
    } else {
      assert MemberClose(false, false) == [COMMA];
      assert MemberClose(false, fmt) == if fmt then [COMMA, NEWLINE] else [COMMA];
      ShrinkWithBlank(c, i, COMMA, NEWLINE, fmt);
    }
  }

  /** Minifying the formatted print of a value gives byte for byte its unformatted print. */
  lemma MinifyPrinted(v: Value, fmt: bool)
    requires Printable(v)
    ensures Minified(Text(v, fmt, 0), 0) == Some(Text(v, false, 0))
  {
    hide Text, At;
    var c := Text(v, fmt, 0);
    AtIsSlice(c, 0, c);
    ShrinkValue(c, 0, v, fmt, 0, 0);
    PrependEmpty(Text(v, false, 0));
  }
}
