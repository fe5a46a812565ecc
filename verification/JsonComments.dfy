/** What the minifier takes out of a text and what it keeps, in terms of white space, comments and string literals. */
module JsonComments {
  import opened Bytes
  import opened JsonGrammar
  import opened JsonMinify

  /** A part of a text. The bytes of a line comment are those behind the two slashes, those of a block comment the ones
      behind its first slash, and those of a literal the ones between its quotation marks. */
  datatype Token = White(b: byte) | Line(text: bytes) | Block(text: bytes) | Literal(text: bytes) | Other(b: byte)

  function Spell(t: Token): (r: bytes)
    ensures 1 <= |r|
  {
    match t
    case White(b) => [b]
    case Line(text) => [47, 47] + text
    case Block(text) => [47] + text
    case Literal(text) => [34] + text + [34]
    case Other(b) => [b]
  }

  /** A block comment, without its first slash, begins with a star and ends with the first star in front of a slash. One
      star is enough: the code takes the three bytes slash, star, slash for a whole comment. */
  predicate BlockText(t: bytes) {
    |t| >= 2 && t[0] == 42 && t[|t| - 2] == 42 && t[|t| - 1] == 47 &&
    forall k :: 0 <= k < |t| - 2 ==> !(t[k] == 42 && t[k + 1] == 47)
  }

  /** Between the quotation marks, a backslash takes the next byte along. */
  predicate LiteralText(t: bytes) {
    t == [] || (t[0] != 34 && t[0] != 92 && LiteralText(t[1..])) ||
    (t[0] == 92 && |t| >= 2 && LiteralText(t[2..]))
  }

  /** A part that ends at `end` of the text: a line comment goes on to the end of its line, and a slash that is no
      comment is not followed by what would make it one. */
  predicate WellFormed(t: Token, c: bytes, end: nat) {
    match t
    case White(b) => b in {32, 9, 13, 10}
    case Line(text) => 10 !in text && (end < |c| ==> c[end] == 10)
    case Block(text) => BlockText(text)
    case Literal(text) => LiteralText(text)
    case Other(b) =>
      b !in {32, 9, 13, 10, 34} && (b == 47 && end < |c| ==> c[end] != 47 && c[end] != 42)
  }

  /** The text from `i` on consists of these parts. */
  predicate TokensAt(c: bytes, i: nat, ts: seq<Token>)
    decreases |ts|
  {
    if ts == [] then i == |c|
    else
      var end := i + |Spell(ts[0])|;
      end <= |c| && c[i..end] == Spell(ts[0]) && WellFormed(ts[0], c, end) && TokensAt(c, end, ts[1..])
  }

  /** What is kept: literals, and all bytes that are neither white space nor in a comment. */
  function Kept(ts: seq<Token>): bytes {
    if ts == [] then []
    else (if ts[0].Literal? || ts[0].Other? then Spell(ts[0]) else []) + Kept(ts[1..])
  }

  // ---------------------------------------------------------------- the ends that the code finds

  lemma {:induction false} LineEndOver(c: bytes, i: nat, end: nat)
    requires i <= end <= |c| && (forall k :: i <= k < end ==> c[k] != 10) && (end < |c| ==> c[end] == 10)
    ensures LineEnd(c, i) == end
    decreases end - i
  {
    if i < end {
      LineEndOver(c, i + 1, end);
    }
  }

  lemma {:induction false} LineEndIs(c: bytes, i: nat)
    requires i <= |c|
    ensures var end := LineEnd(c, i);
      (forall k :: i <= k < end ==> c[k] != 10) && (end < |c| ==> c[end] == 10)
    decreases |c| - i
  {
    if i < |c| && c[i] != 10 {
      LineEndIs(c, i + 1);
    }
  }

  lemma {:induction false} BlockEndOver(c: bytes, i: nat, end: nat)
    requires i + 2 <= end <= |c| && c[end - 2] == 42 && c[end - 1] == 47
    requires forall k :: i <= k < end - 2 ==> !(c[k] == 42 && c[k + 1] == 47)
    ensures BlockEnd(c, i) == Some(end)
    decreases end - i
  {
    if i + 2 < end {
      BlockEndOver(c, i + 1, end);
    }
  }

  lemma {:induction false} BlockEndIs(c: bytes, i: nat)
    requires i <= |c| && BlockEnd(c, i).Some?
    ensures var end := BlockEnd(c, i).value;
      i + 2 <= end <= |c| && c[end - 2] == 42 && c[end - 1] == 47 &&
      forall k :: i <= k < end - 2 ==> !(c[k] == 42 && c[k + 1] == 47)
    decreases |c| - i
  {
    if !(i + 1 < |c| && c[i] == 42 && c[i + 1] == 47) {
      BlockEndIs(c, i + 1);
    }
  }

  lemma {:induction false} ClosingQuoteOver(c: bytes, i: nat, text: bytes)
    requires i + |text| < |c| && c[i..i + |text|] == text && LiteralText(text) && c[i + |text|] == 34
    ensures ClosingQuote(c, i) == Some(i + |text|)
    decreases |text|
  {
    if text != [] {
      var n := if text[0] == 92 then 2 else 1;
      assert c[i] == text[0];
      assert c[i + n..i + |text|] == text[n..];
      ClosingQuoteOver(c, i + n, text[n..]);
    }
  }

  lemma {:induction false} ClosingQuoteIs(c: bytes, i: nat)
    requires i <= |c| && ClosingQuote(c, i).Some?
    ensures LiteralText(c[i..ClosingQuote(c, i).value])
    decreases |c| - i
  {
    var end := ClosingQuote(c, i).value;
    if i < end {
      var n := if c[i] == 92 then 2 else 1;
      ClosingQuoteIs(c, i + n);
      assert c[i..end][n..] == c[i + n..end] && c[i..end][0] == c[i];
    }
  }

  // ---------------------------------------------------------------- one part

  /** Minifying over a part keeps it or drops it. */
  lemma OnePart(c: bytes, i: nat, t: Token)
    requires i + |Spell(t)| <= |c| && c[i..i + |Spell(t)|] == Spell(t) && WellFormed(t, c, i + |Spell(t)|)
    ensures Minified(c, i)
         == Prepend(if t.Literal? || t.Other? then Spell(t) else [], Minified(c, i + |Spell(t)|))
  {
    hide LineEnd, BlockEnd, ClosingQuote, BlockText, LiteralText;
    var end := i + |Spell(t)|;
    PrependNothing(Minified(c, end));
    assert c[i] == Spell(t)[0];
    match t {
      case White(b) =>
      case Line(text) => LinePart(c, i, text);
      case Block(text) => BlockPart(c, i, text);
      case Literal(text) => LiteralPart(c, i, text);
      case Other(b) =>
    }
  }

  lemma LinePart(c: bytes, i: nat, text: bytes)
    requires i + 2 + |text| <= |c| && c[i..i + 2 + |text|] == [47, 47] + text
    requires WellFormed(Line(text), c, i + 2 + |text|)
    ensures i + 1 < |c| && c[i] == 47 && c[i + 1] == 47 && LineEnd(c, i) == i + 2 + |text|
  {
    var end := i + 2 + |text|;
    forall k | i <= k < end ensures c[k] == ([47, 47] + text)[k - i] && c[k] != 10 {
      assert c[k] == c[i..end][k - i];
    }
    assert c[i + 1] == ([47, 47] + text)[1];
    LineEndOver(c, i, end);
  }

  lemma BlockPart(c: bytes, i: nat, text: bytes)
    requires i + 1 + |text| <= |c| && c[i..i + 1 + |text|] == [47] + text && BlockText(text)
    ensures i + 1 < |c| && c[i] == 47 && c[i + 1] == 42 && BlockEnd(c, i) == Some(i + 1 + |text|)
  {
    var end := i + 1 + |text|;
    forall k | i <= k < end ensures c[k] == ([47] + text)[k - i] {
      assert c[k] == c[i..end][k - i];
    }
    forall k | i <= k < end - 2 ensures !(c[k] == 42 && c[k + 1] == 47) {
      if i < k {
        assert c[k] == text[k - i - 1] && c[k + 1] == text[k - i];
      }
    }
    assert c[end - 2] == text[|text| - 2] && c[end - 1] == text[|text| - 1] && c[i + 1] == text[0];
    BlockEndOver(c, i, end);
  }

  lemma LiteralPart(c: bytes, i: nat, text: bytes)
    requires i + 2 + |text| <= |c| && c[i..i + 2 + |text|] == [34] + text + [34] && LiteralText(text)
    ensures c[i] == 34 && ClosingQuote(c, i + 1) == Some(i + 1 + |text|)
  {
    hide ClosingQuote, LiteralText;
    InnerSlice(c, i, text);
    ClosingQuoteOver(c, i + 1, text);
  }

  lemma InnerSlice(c: bytes, i: nat, text: bytes)
    requires i + 2 + |text| <= |c| && c[i..i + 2 + |text|] == [34] + text + [34]
    ensures c[i] == 34 && c[i + 1 + |text|] == 34 && c[i + 1..i + 1 + |text|] == text
  {
    var whole, part := [34] + text + [34], c[i..i + 2 + |text|];
    assert c[i] == part[0] && c[i + 1 + |text|] == part[|text| + 1];
    forall k | 0 <= k < |text| ensures c[i + 1 + k] == text[k] {
      assert part[k + 1] == whole[k + 1];
    }
  }

  // ---------------------------------------------------------------- whole texts

  lemma {:induction false} TokensMinified(c: bytes, i: nat, ts: seq<Token>)
    requires i <= |c| && TokensAt(c, i, ts)
    ensures Minified(c, i) == Some(Kept(ts))
    decreases |ts|
  {
    hide Minified, Spell, WellFormed;
    if ts == [] {
      AtTheEnd(c);
    } else {
      var end := i + |Spell(ts[0])|;
      OnePart(c, i, ts[0]);
      TokensMinified(c, end, ts[1..]);
    }
  }

  lemma AtTheEnd(c: bytes)
    ensures Minified(c, |c|) == Some([])
  {
  }

  /** The part that the code finds at `i`. */
  function PartAt(c: bytes, i: nat): Token
    requires i < |c| && Minified(c, i).Some?
  {
    if Blank(c[i]) then White(c[i])
    else if c[i] == SLASH && i + 1 < |c| && c[i + 1] == SLASH then
      Line(if i + 2 <= LineEnd(c, i) then c[i + 2..LineEnd(c, i)] else [])
    else if c[i] == SLASH && i + 1 < |c| && c[i + 1] == STAR then Block(c[i + 1..BlockEnd(c, i).value])
    else if c[i] == QUOTE then Literal(c[i + 1..ClosingQuote(c, i + 1).value])
    else Other(c[i])
  }

  predicate IsThere(c: bytes, i: nat, t: Token) {
    i + |Spell(t)| <= |c| && c[i..i + |Spell(t)|] == Spell(t) && WellFormed(t, c, i + |Spell(t)|)
  }

  lemma FirstOf(c: bytes, i: nat, end: nat)
    requires i < end <= |c|
    ensures c[i..end] == [c[i]] + c[i + 1..end]
  {
  }

  lemma LineIsThere(c: bytes, i: nat)
    requires i + 1 < |c| && c[i] == 47 && c[i + 1] == 47
    ensures i + 2 <= LineEnd(c, i) && IsThere(c, i, Line(c[i + 2..LineEnd(c, i)]))
  {
    hide LineEnd, IsThere;
    LineEndIs(c, i);
    assert c[LineEnd(c, i) - 1] != 10;
    LineBetween(c, i, LineEnd(c, i));
  }

  lemma LineBetween(c: bytes, i: nat, end: nat)
    requires i + 2 <= end <= |c| && c[i] == 47 && c[i + 1] == 47
    requires (forall k :: i <= k < end ==> c[k] != 10) && (end < |c| ==> c[end] == 10)
    ensures IsThere(c, i, Line(c[i + 2..end]))
  {
    var whole := [47, 47] + c[i + 2..end];
    assert |whole| == end - i;
    forall k | 0 <= k < |whole| ensures c[i..end][k] == whole[k] {
    }
    assert c[i..end] == whole;
  }

  lemma BlockIsThere(c: bytes, i: nat)
    requires i + 1 < |c| && c[i] == 47 && c[i + 1] == 42 && BlockEnd(c, i).Some?
    ensures IsThere(c, i, Block(c[i + 1..BlockEnd(c, i).value]))
  {
    hide BlockEnd, BlockText;
    BlockIsText(c, i);
    FirstOf(c, i, BlockEnd(c, i).value);
  }

  lemma BlockIsText(c: bytes, i: nat)
    requires i + 1 < |c| && c[i] == 47 && c[i + 1] == 42 && BlockEnd(c, i).Some?
    ensures i + 2 < BlockEnd(c, i).value <= |c| && BlockText(c[i + 1..BlockEnd(c, i).value])
  {
    hide BlockEnd, BlockText;
    BlockEndIs(c, i);
    var end := BlockEnd(c, i).value;
    assert c[end - 2] == 42;
    BlockTextIs(c, i + 1, end);
  }

  lemma BlockTextIs(c: bytes, i: nat, end: nat)
    requires i + 2 <= end <= |c| && c[i] == 42 && c[end - 2] == 42 && c[end - 1] == 47
    requires forall k :: i <= k < end - 2 ==> !(c[k] == 42 && c[k + 1] == 47)
    ensures BlockText(c[i..end])
  {
    var text := c[i..end];
    forall k | 0 <= k < |text| ensures text[k] == c[i + k] {
    }
    forall k | 0 <= k < |text| - 2 ensures !(text[k] == 42 && text[k + 1] == 47) {
      assert text[k] == c[i + k] && text[k + 1] == c[i + k + 1];
    }
  }

  lemma LiteralIsThere(c: bytes, i: nat)
    requires i < |c| && c[i] == 34 && ClosingQuote(c, i + 1).Some?
    ensures IsThere(c, i, Literal(c[i + 1..ClosingQuote(c, i + 1).value]))
  {
    hide ClosingQuote, LiteralText, IsThere;
    ClosingQuoteIs(c, i + 1);
    LiteralBetween(c, i, ClosingQuote(c, i + 1).value);
  }

  lemma LiteralBetween(c: bytes, i: nat, end: nat)
    requires i < end < |c| && c[i] == 34 && c[end] == 34 && LiteralText(c[i + 1..end])
    ensures IsThere(c, i, Literal(c[i + 1..end]))
  {
    hide LiteralText;
    var text := c[i + 1..end];
    var whole := [34] + text + [34];
    assert |whole| == end + 1 - i;
    forall k | 0 <= k < |whole| ensures c[i..end + 1][k] == whole[k] {
    }
    assert c[i..end + 1] == whole;
  }

  lemma PartIsThere(c: bytes, i: nat)
    requires i < |c| && Minified(c, i).Some?
    ensures IsThere(c, i, PartAt(c, i))
  {
    hide LineEnd, BlockEnd, ClosingQuote, BlockText, LiteralText;
    if Blank(c[i]) {
    } else if c[i] == SLASH && i + 1 < |c| && c[i + 1] == SLASH {
      LineIsThere(c, i);
    } else if c[i] == SLASH && i + 1 < |c| && c[i + 1] == STAR {
      BlockIsThere(c, i);
    } else if c[i] == QUOTE {
      LiteralIsThere(c, i);
    }
  }

  lemma {:induction false} HasTokens(c: bytes, i: nat) returns (ts: seq<Token>)
    requires i <= |c| && Minified(c, i).Some?
    ensures TokensAt(c, i, ts)
    decreases |c| - i
  {
    hide Minified, Spell, WellFormed, PartAt;
    if i == |c| {
      ts := [];
    } else {
      var t := PartAt(c, i);
      PartIsThere(c, i);
      OnePart(c, i, t);
      var rest := HasTokens(c, i + |Spell(t)|);
      ts := [t] + rest;
    }
  }

  /** A text is minified exactly when it consists of white space, comments, literals and other bytes, with no literal or
      block comment left open; and what remains are the literals and the other bytes, in order. */
  lemma MinifiedExactly(c: bytes)
    ensures Minified(c, 0).Some? <==> exists ts :: TokensAt(c, 0, ts)
    ensures forall ts :: TokensAt(c, 0, ts) ==> Minified(c, 0) == Some(Kept(ts))
  {
    hide Minified, TokensAt, Kept;
    forall ts | TokensAt(c, 0, ts) ensures Minified(c, 0) == Some(Kept(ts)) {
      TokensMinified(c, 0, ts);
    }
    if Minified(c, 0).Some? {
      var ts := HasTokens(c, 0);
    }
  }

  /** Slash, star, slash is a whole comment, although the star would have to be there twice. */
  lemma ShortestComment(b: byte)
    requires b !in {32, 9, 13, 10, 34, 47}
    ensures Minified([47, 42, 47, b], 0) == Some([b])
  {
    var c: bytes, ts := [47, 42, 47, b], [Block([42, 47]), Other(b)];
    assert c[0..3] == [47] + [42, 47] == Spell(ts[0]) && c[3..4] == Spell(ts[1]);
    assert ts[1..] == [Other(b)] && ts[1..][1..] == [];
    assert TokensAt(c, 4, []) && TokensAt(c, 3, ts[1..]) && TokensAt(c, 0, ts);
    TokensMinified(c, 0, ts);
    assert Kept([]) == [] && Kept(ts[1..]) == [b] + [] == [b] && Kept(ts) == [] + Kept(ts[1..]) == [b];
  }
}
