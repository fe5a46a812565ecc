/** String literals against an independent description of them as sequences of spelled characters. */
module JsonStrings {
  import opened Bytes
  import opened Unicode
  import opened JsonText
  import opened JsonGrammar

  /** One spelled character of a literal: itself, a two-character escape, a \u escape or a surrogate pair. */
  datatype Piece =
    | Plain(b: byte)
    | Short(letter: byte)
    | Unit(hex: Hex4)
    | Pair(high: Hex4, low: Hex4)

  /** The letters that may follow a backslash and the bytes that they stand for (RFC 8259 section 7): quotation mark,
      backslash, slash, backspace, form feed, line feed, carriage return and tab. */
  const SHORT_FORMS: map<byte, byte> :=
    map[34 := 34, 92 := 92, 47 := 47, 98 := 8, 102 := 12, 110 := 10, 114 := 13, 116 := 9]

  /** The code knows exactly these letters, and for the same bytes. */
  lemma UnescapeExactly(letter: byte)
    ensures Unescape(letter) == if letter in SHORT_FORMS then Some(SHORT_FORMS[letter]) else None
  {
  }

  predicate Legal(p: Piece) {
    match p
    case Plain(b) => b != QUOTE && b != BACKSLASH
    case Short(letter) => letter in SHORT_FORMS
    case Unit(hex) => hex.AreDigits() && Scalar(hex.Value())
    case Pair(high, low) =>
      high.AreDigits() && low.AreDigits() && HighSurrogate(high.Value()) && LowSurrogate(low.Value())
  }

  /** A piece as it is formed, whatever its escapes stand for. */
  predicate Formed(p: Piece) {
    match p
    case Plain(b) => b != QUOTE && b != BACKSLASH
    case Short(letter) => letter in SHORT_FORMS
    case Unit(hex) => hex.AreDigits()
    case Pair(high, low) => high.AreDigits() && low.AreDigits()
  }

  function Spell(p: Piece): (r: bytes)
    ensures 1 <= |r|
  {
    match p
    case Plain(b) => [b]
    case Short(letter) => [BACKSLASH, letter]
    case Unit(hex) => hex.Escaped()
    case Pair(high, low) => high.Escaped() + low.Escaped()
  }

  /** The bytes a spelled character stands for. */
  function Mean(p: Piece): bytes
    requires Legal(p)
  {
    match p
    case Plain(b) => [b]
    case Short(letter) => [SHORT_FORMS[letter]]
    case Unit(hex) => Encode(hex.Value())
    case Pair(high, low) => Encode(FromPair(high.Value(), low.Value()))
  }

  datatype Pieces = Last | Then(piece: Piece, rest: Pieces)

  predicate AllLegal(ps: Pieces) {
    ps.Then? ==> Legal(ps.piece) && AllLegal(ps.rest)
  }

  predicate AllFormed(ps: Pieces) {
    ps.Then? ==> Formed(ps.piece) && AllFormed(ps.rest)
  }

  lemma {:induction false} LegalIsFormed(ps: Pieces)
    requires AllLegal(ps)
    ensures AllFormed(ps)
  {
    if ps.Then? {
      LegalIsFormed(ps.rest);
    }
  }

  function MeanAll(ps: Pieces): bytes
    requires AllLegal(ps)
  {
    match ps
    case Last => []
    case Then(p, rest) => Mean(p) + MeanAll(rest)
  }

  /** The pieces are spelled out in `c` from `i` up to `j`. */
  predicate Spelled(c: bytes, i: nat, ps: Pieces, j: nat)
    ensures Spelled(c, i, ps, j) ==> i <= j <= |c|
    decreases ps
  {
    match ps
    case Last => i == j <= |c|
    case Then(p, rest) => At(c, i, Spell(p)) && Spelled(c, i + |Spell(p)|, rest, j)
  }

  /** The bytes of an escape, one by one. */
  lemma EscapedAt(c: bytes, i: nat, hex: Hex4)
    requires At(c, i, hex.Escaped())
    ensures c[i] == BACKSLASH && c[i + 1] == LOWER_U && Hex4(c[i + 2], c[i + 3], c[i + 4], c[i + 5]) == hex
    ensures CodeUnit(c, i) == hex.Read()
  {
    AtIndex(c, i, hex.Escaped(), 1);
    AtIndex(c, i, hex.Escaped(), 2);
    AtIndex(c, i, hex.Escaped(), 3);
    AtIndex(c, i, hex.Escaped(), 4);
    AtIndex(c, i, hex.Escaped(), 5);
  }

  lemma ClosingQuoteOverEscaped(c: bytes, i: nat, hex: Hex4)
    requires At(c, i, hex.Escaped()) && hex.AreDigits()
    ensures ClosingQuote(c, i) == ClosingQuote(c, i + 6)
  {
    EscapedAt(c, i, hex);
    assert ClosingQuote(c, i) == ClosingQuote(c, i + 2);
    assert ClosingQuote(c, i + 2) == ClosingQuote(c, i + 3);
    assert ClosingQuote(c, i + 3) == ClosingQuote(c, i + 4);
    assert ClosingQuote(c, i + 4) == ClosingQuote(c, i + 5);
  }

  lemma ClosingQuoteOverPiece(c: bytes, i: nat, p: Piece)
    requires Formed(p) && At(c, i, Spell(p))
    ensures ClosingQuote(c, i) == ClosingQuote(c, i + |Spell(p)|)
  {
    match p {
      case Plain(b) =>
      case Short(letter) => AtIndex(c, i, Spell(p), 1);
      case Unit(hex) => ClosingQuoteOverEscaped(c, i, hex);
      case Pair(high, low) =>
        AtConcat(c, i, high.Escaped(), low.Escaped());
        ClosingQuoteOverEscaped(c, i, high);
        ClosingQuoteOverEscaped(c, i + 6, low);
    }
  }

  /** The search for the closing quote runs over well-formed contents. */
  lemma {:induction false} ClosingQuoteOver(c: bytes, i: nat, ps: Pieces, j: nat)
    requires AllFormed(ps) && Spelled(c, i, ps, j)
    ensures ClosingQuote(c, i) == ClosingQuote(c, j)
    decreases ps
  {
    if ps.Then? {
      ClosingQuoteOverPiece(c, i, ps.piece);
      ClosingQuoteOver(c, i + |Spell(ps.piece)|, ps.rest, j);
    }
  }

  lemma ContentsOverPiece(c: bytes, i: nat, p: Piece, end: nat)
    requires Legal(p) && At(c, i, Spell(p)) && i + |Spell(p)| <= end < |c|
    ensures Contents(c, i, end) == Prepend(Mean(p), Contents(c, i + |Spell(p)|, end))
  {
    match p {
      case Plain(b) =>
      case Short(letter) =>
        AtIndex(c, i, Spell(p), 1);
        UnescapeExactly(letter);
      case Unit(hex) => EscapedAt(c, i, hex);
      case Pair(high, low) =>
        AtConcat(c, i, high.Escaped(), low.Escaped());
        EscapedAt(c, i, high);
        EscapedAt(c, i + 6, low);
    }
  }

  /** Decoding runs over legal contents and yields their meaning. */
  lemma {:induction false} ContentsOver(c: bytes, i: nat, ps: Pieces, j: nat, end: nat)
    requires AllLegal(ps) && Spelled(c, i, ps, j) && j <= end < |c|
    ensures Contents(c, i, end) == Prepend(MeanAll(ps), Contents(c, j, end))
    decreases ps
  {
    hide Contents, Mean, Spell, At;
    match ps
    case Last =>
      var r := Contents(c, i, end);
      assert r.Some? ==> [] + r.value == r.value;
    case Then(p, rest) =>
      ContentsOverPiece(c, i, p, end);
      ContentsOver(c, i + |Spell(p)|, rest, j, end);
      PrependPrepend(Mean(p), MeanAll(rest), Contents(c, j, end));
  }

  /** Every legal literal is read as its meaning, up to and including the closing quote. */
  lemma StringMeaning(c: bytes, off: nat, ps: Pieces, end: nat)
    requires Terminated(c) && off < |c| && c[off] == QUOTE
    requires AllLegal(ps) && Spelled(c, off + 1, ps, end) && end < |c| && c[end] == QUOTE
    ensures ParseString(c, off) == Some((MeanAll(ps), end + 1))
  {
    hide CodePoint, Encode, MeanAll, Spelled;
    LegalIsFormed(ps);
    ClosingQuoteOver(c, off + 1, ps, end);
    ContentsOver(c, off + 1, ps, end, end);
    assert MeanAll(ps) + [] == MeanAll(ps);
  }

  /** A \u escape of a low surrogate, or of a high surrogate that no low surrogate escape follows. */
  predicate LoneSurrogate(c: bytes, p: nat) {
    p + 6 <= |c| &&
    var first := CodeUnit(c, p);
    LowSurrogate(first) ||
    (HighSurrogate(first) &&
     !(p + 12 <= |c| && c[p + 6] == BACKSLASH && c[p + 7] == LOWER_U && LowSurrogate(CodeUnit(c, p + 6))))
  }

  /** A literal with a lone surrogate after any legal contents is rejected, whatever follows it. */
  lemma LoneSurrogateRejected(c: bytes, off: nat, ps: Pieces, p: nat, hex: Hex4)
    requires Terminated(c) && off < |c| && c[off] == QUOTE
    requires AllLegal(ps) && Spelled(c, off + 1, ps, p)
    requires At(c, p, hex.Escaped()) && LoneSurrogate(c, p)
    ensures ParseString(c, off) == None
  {
    EscapedAt(c, p, hex);
    LegalIsFormed(ps);
    ClosingQuoteOver(c, off + 1, ps, p);
    var end := ClosingQuote(c, p);
    if end.Some? {
      ContentsOver(c, off + 1, ps, p, end.value);
      assert CodePoint(c, p, end.value) == None;
    }
  }

  // ---------------------------------------------------------------- exactly the literals that are accepted

  /** What the code takes for a spelled character: also a \u escape whose four bytes are not all digits, which it
      reads as U+0000, and after such an escape even a plain quote. */
  predicate Accepted(p: Piece) {
    match p
    case Plain(b) => b != BACKSLASH
    case Short(letter) => letter in SHORT_FORMS
    case Unit(hex) => Scalar(hex.Read())
    case Pair(high, low) => HighSurrogate(high.Read()) && LowSurrogate(low.Read())
  }

  function Reading(p: Piece): bytes
    requires Accepted(p)
  {
    match p
    case Plain(b) => [b]
    case Short(letter) => [SHORT_FORMS[letter]]
    case Unit(hex) => Encode(hex.Read())
    case Pair(high, low) => Encode(FromPair(high.Read(), low.Read()))
  }

  predicate AllAccepted(ps: Pieces) { ps.Then? ==> Accepted(ps.piece) && AllAccepted(ps.rest) }

  function ReadingAll(ps: Pieces): bytes
    requires AllAccepted(ps)
  {
    match ps
    case Last => []
    case Then(p, rest) => Reading(p) + ReadingAll(rest)
  }

  /** The pieces are spelled out in `c` from `i` on, each starts in front of `end`, \u escapes end there at the latest,
      and the last piece reaches it. */
  predicate Fills(c: bytes, i: nat, ps: Pieces, end: nat)
    decreases ps
  {
    match ps
    case Last => end <= i
    case Then(p, rest) =>
      i < end && At(c, i, Spell(p)) && (p.Unit? || p.Pair? ==> i + |Spell(p)| <= end) &&
      Fills(c, i + |Spell(p)|, rest, end)
  }

  /** A literal as the code takes it apart. */
  predicate IsLiteral(c: bytes, off: nat, ps: Pieces, end: nat)
    requires off < |c|
  {
    ClosingQuote(c, off + 1) == Some(end) && AllAccepted(ps) && Fills(c, off + 1, ps, end)
  }

  lemma AcceptedPiece(c: bytes, i: nat, p: Piece, end: nat)
    requires Accepted(p) && At(c, i, Spell(p)) && i < end < |c| && (p.Unit? || p.Pair? ==> i + |Spell(p)| <= end)
    ensures Contents(c, i, end) == Prepend(Reading(p), Contents(c, i + |Spell(p)|, end))
  {
    match p {
      case Plain(b) =>
      case Short(letter) =>
        AtIndex(c, i, Spell(p), 1);
        UnescapeExactly(letter);
      case Unit(hex) => EscapedAt(c, i, hex);
      case Pair(high, low) =>
        AtConcat(c, i, high.Escaped(), low.Escaped());
        EscapedAt(c, i, high);
        EscapedAt(c, i + 6, low);
    }
  }

  lemma {:induction false} AcceptedContents(c: bytes, i: nat, ps: Pieces, end: nat)
    requires AllAccepted(ps) && Fills(c, i, ps, end) && end < |c|
    ensures Contents(c, i, end) == Some(ReadingAll(ps))
    decreases ps
  {
    hide Contents, Reading, Spell, At;
    match ps
    case Last => ContentsEnd(c, i, end);
    case Then(p, rest) =>
      AcceptedPiece(c, i, p, end);
      AcceptedContents(c, i + |Spell(p)|, rest, end);
  }

  lemma ContentsEnd(c: bytes, i: nat, end: nat)
    requires end <= i && end < |c|
    ensures Contents(c, i, end) == Some([])
  {
  }

  /** The spelled character that the code reads at a position. */
  function PieceAt(c: bytes, i: nat, end: nat): (p: Piece)
    requires i < end < |c| && Contents(c, i, end).Some?
    ensures Accepted(p) && (p.Unit? || p.Pair? ==> i + |Spell(p)| <= end)
    ensures Contents(c, i + |Spell(p)|, end).Some?
  {
    if c[i] != BACKSLASH then Plain(c[i])
    else if c[i + 1] == LOWER_U then
      var hex := Hex4(c[i + 2], c[i + 3], c[i + 4], c[i + 5]);
      if HighSurrogate(CodeUnit(c, i)) then Pair(hex, Hex4(c[i + 8], c[i + 9], c[i + 10], c[i + 11])) else Unit(hex)
    else
      UnescapeExactly(c[i + 1]);
      Short(c[i + 1])
  }

  lemma PieceIsThere(c: bytes, i: nat, end: nat)
    requires i < end < |c| && Contents(c, i, end).Some?
    ensures At(c, i, Spell(PieceAt(c, i, end)))
  {
    hide At;
    var p := PieceAt(c, i, end);
    match p {
      case Plain(b) => AtIsSlice(c, i, [b]);
      case Short(letter) => AtIsSlice(c, i, [BACKSLASH, letter]);
      case Unit(hex) => EscapeIsThere(c, i);
      case Pair(high, low) =>
        EscapeIsThere(c, i);
        EscapeIsThere(c, i + 6);
        AtConcat(c, i, high.Escaped(), low.Escaped());
    }
  }

  lemma EscapeIsThere(c: bytes, i: nat)
    requires i + 6 <= |c| && c[i] == BACKSLASH && c[i + 1] == LOWER_U
    ensures At(c, i, Hex4(c[i + 2], c[i + 3], c[i + 4], c[i + 5]).Escaped())
  {
    AtIsSlice(c, i, Hex4(c[i + 2], c[i + 3], c[i + 4], c[i + 5]).Escaped());
  }

  /** The spelled characters that the code reads. */
  function PiecesFrom(c: bytes, i: nat, end: nat): (ps: Pieces)
    requires end < |c| && Contents(c, i, end).Some?
    ensures AllAccepted(ps)
    decreases end - i
  {
    if end <= i then Last
    else Then(PieceAt(c, i, end), PiecesFrom(c, i + |Spell(PieceAt(c, i, end))|, end))
  }

  lemma {:induction false} PiecesFill(c: bytes, i: nat, end: nat)
    requires end < |c| && Contents(c, i, end).Some?
    ensures Fills(c, i, PiecesFrom(c, i, end), end)
    decreases end - i
  {
    hide Contents, At, Spell;
    if i < end {
      PieceIsThere(c, i, end);
      PiecesFill(c, i + |Spell(PieceAt(c, i, end))|, end);
    }
  }

  /** The code accepts exactly the literals that can be taken apart in this way, and reads them accordingly. */
  lemma AcceptedExactly(c: bytes, off: nat)
    requires Terminated(c) && off < |c| && c[off] == QUOTE
    ensures ParseString(c, off).Some? <==> exists ps, end :: IsLiteral(c, off, ps, end)
    ensures forall ps, end :: IsLiteral(c, off, ps, end) ==> ParseString(c, off) == Some((ReadingAll(ps), end + 1))
  {
    hide Contents, Fills, AllAccepted, ReadingAll;
    forall ps, end | IsLiteral(c, off, ps, end)
      ensures ParseString(c, off) == Some((ReadingAll(ps), end + 1)) {
      AcceptedContents(c, off + 1, ps, end);
    }
    if ParseString(c, off).Some? {
      var end := ClosingQuote(c, off + 1).value;
      PiecesFill(c, off + 1, end);
      assert IsLiteral(c, off, PiecesFrom(c, off + 1, end), end);
    }
  }

  /** Four bytes after \u that are not all digits: as the first escape they are an error only when the literal ends too
      early, as the second half of a pair always. */
  lemma BadDigits(c: bytes, i: nat, end: nat)
    requires i <= end <= |c|
    ensures i + 6 <= |c| && !DigitsAt(c, i) ==> CodePoint(c, i, end) == if end < i + 6 then None else Some((0, 6))
    ensures i + 12 <= |c| && !DigitsAt(c, i + 6) && HighSurrogate(CodeUnit(c, i)) ==> CodePoint(c, i, end) == None
  {
  }

  predicate DigitsAt(c: bytes, i: nat)
    requires i + 6 <= |c|
  {
    Hex4(c[i + 2], c[i + 3], c[i + 4], c[i + 5]).AreDigits()
  }

  // ---------------------------------------------------------------- exactly the literals that should be accepted

  /** Every \u that has six bytes in front of the closing quote is followed by four digits. */
  predicate DigitsFollow(c: bytes, i: nat, end: nat)
    requires end < |c|
    decreases end - i
  {
    if i >= end then true
    else if c[i] != BACKSLASH then DigitsFollow(c, i + 1, end)
    else if c[i + 1] != LOWER_U then DigitsFollow(c, i + 2, end)
    else i + 6 <= end ==> DigitsAt(c, i) && DigitsFollow(c, i + 6, end)
  }

  /** No raw control byte stands in the literal. */
  predicate NoControls(c: bytes, i: nat, end: nat)
    requires end <= |c|
  {
    forall k :: i <= k < end ==> 32 <= c[k]
  }

  /** A legal piece that is no raw control byte. */
  predicate Proper(p: Piece) { Legal(p) && (p.Plain? ==> 32 <= p.b) }

  predicate AllProper(ps: Pieces) { ps.Then? ==> Proper(ps.piece) && AllProper(ps.rest) }

  lemma {:induction false} ProperIsLegal(ps: Pieces)
    requires AllProper(ps)
    ensures AllLegal(ps)
  {
    if ps.Then? {
      ProperIsLegal(ps.rest);
    }
  }

  lemma DigitsOverPiece(c: bytes, i: nat, p: Piece, end: nat)
    requires Formed(p) && At(c, i, Spell(p)) && i + |Spell(p)| <= end < |c|
    ensures DigitsFollow(c, i, end) <==> DigitsFollow(c, i + |Spell(p)|, end)
  {
    match p {
      case Plain(b) =>
      case Short(letter) => AtIndex(c, i, Spell(p), 1);
      case Unit(hex) => EscapedAt(c, i, hex);
      case Pair(high, low) =>
        AtConcat(c, i, high.Escaped(), low.Escaped());
        EscapedAt(c, i, high);
        EscapedAt(c, i + 6, low);
    }
  }

  lemma PieceBytes(c: bytes, i: nat, p: Piece)
    requires Formed(p) && (p.Plain? ==> 32 <= p.b) && At(c, i, Spell(p))
    ensures NoControls(c, i, i + |Spell(p)|)
  {
    AtIsSlice(c, i, Spell(p));
    forall k | 0 <= k < |Spell(p)| ensures c[i + k] == Spell(p)[k] && 32 <= Spell(p)[k] {
      AtIndex(c, i, Spell(p), k);
    }
    forall k | i <= k < i + |Spell(p)| ensures 32 <= c[k] {
      assert c[i + (k - i)] == Spell(p)[k - i];
    }
  }

  lemma NothingFollows(c: bytes, end: nat)
    requires end < |c|
    ensures DigitsFollow(c, end, end)
  {
  }

  lemma ProperPiece(p: Piece)
    ensures Legal(p) ==> Formed(p)
    ensures Proper(p) ==> Legal(p)
  {
  }

  /** The piece that is read where digits follow is legal. */
  lemma PieceIsProper(c: bytes, i: nat, end: nat)
    requires i < end < |c| && Contents(c, i, end).Some? && DigitsFollow(c, i, end) && NoControls(c, i, end)
    requires ClosingQuote(c, i) == Some(end)
    ensures Proper(PieceAt(c, i, end))
  {
    var p := PieceAt(c, i, end);
    PieceIsThere(c, i, end);
    if p.Pair? {
      assert CodePoint(c, i, end).Some?;
      assert DigitsFollow(c, i + 6, end) && DigitsAt(c, i + 6);
    }
  }

  lemma FewerControls(c: bytes, i: nat, j: nat, end: nat)
    requires end <= |c| && i <= j && NoControls(c, i, end)
    ensures NoControls(c, j, end)
  {
  }

  lemma {:induction false} PiecesAreProper(c: bytes, i: nat, end: nat)
    requires i <= end < |c| && Contents(c, i, end).Some? && DigitsFollow(c, i, end) && NoControls(c, i, end)
    requires ClosingQuote(c, i) == Some(end)
    ensures AllProper(PiecesFrom(c, i, end)) && Spelled(c, i, PiecesFrom(c, i, end), end)
    decreases end - i
  {
    hide Contents, DigitsFollow, NoControls, Spell, At, ClosingQuote, Proper, Legal, Formed, Accepted;
    if i < end {
      FewerControls(c, i, i + |Spell(PieceAt(c, i, end))|, end);
      var p := PieceAt(c, i, end);
      PieceIsProper(c, i, end);
      PieceIsThere(c, i, end);
      ProperPiece(p);
      ClosingQuoteOverPiece(c, i, p);
      DigitsOverPiece(c, i, p, end);
      PiecesAreProper(c, i + |Spell(p)|, end);
    }
  }

  /** A spelled character by the grammar of RFC 8259 section 7: any four digits may follow \u. */
  predicate Grammatical(p: Piece) { Formed(p) && !p.Pair? && (p.Plain? ==> 32 <= p.b) }

  predicate AllGrammatical(ps: Pieces) { ps.Then? ==> Grammatical(ps.piece) && AllGrammatical(ps.rest) }

  /** Every escape of a surrogate is part of a pair, a high one in front of a low one. */
  predicate Paired(ps: Pieces) {
    if ps.Last? then true
    else if !ps.piece.Unit? then Paired(ps.rest)
    else if LowSurrogate(ps.piece.hex.Read()) then false
    else if HighSurrogate(ps.piece.hex.Read()) then LowFirst(ps.rest) && Paired(ps.rest.rest)
    else Paired(ps.rest)
  }

  predicate LowFirst(ps: Pieces) { ps.Then? && ps.piece.Unit? && LowSurrogate(ps.piece.hex.Read()) }

  /** Pairs of escapes taken together. */
  function Joined(ps: Pieces): (r: Pieces)
    requires AllGrammatical(ps) && Paired(ps)
    ensures AllProper(r) && AllLegal(r)
  {
    if ps.Last? then Last
    else if ps.piece.Unit? && HighSurrogate(ps.piece.hex.Read()) then
      assert AllGrammatical(ps.rest);
      assert Grammatical(ps.rest.piece) && AllGrammatical(ps.rest.rest);
      Then(Pair(ps.piece.hex, ps.rest.piece.hex), Joined(ps.rest.rest))
    else Then(ps.piece, Joined(ps.rest))
  }

  /** Pairs taken apart again. */
  function Apart(ps: Pieces): (r: Pieces)
    requires AllProper(ps)
    ensures AllGrammatical(r) && Paired(r)
  {
    if ps.Last? then Last
    else if ps.piece.Pair? then
      var low := Then(Unit(ps.piece.low), Apart(ps.rest));
      assert AllGrammatical(low) && LowFirst(low);
      Then(Unit(ps.piece.high), low)
    else Then(ps.piece, Apart(ps.rest))
  }

  lemma PairSpelled(c: bytes, i: nat, high: Hex4, low: Hex4)
    ensures At(c, i, Spell(Pair(high, low))) <==> At(c, i, Spell(Unit(high))) && At(c, i + 6, Spell(Unit(low)))
    ensures |Spell(Pair(high, low))| == 12 && |Spell(Unit(high))| == 6
  {
    AtConcat(c, i, high.Escaped(), low.Escaped());
  }

  lemma {:induction false} JoinedSpelled(c: bytes, i: nat, ps: Pieces, j: nat)
    requires AllGrammatical(ps) && Paired(ps) && Spelled(c, i, ps, j)
    ensures Spelled(c, i, Joined(ps), j)
    decreases ps
  {
    hide At, Spell, Formed, Legal;
    if ps.Then? && ps.piece.Unit? && HighSurrogate(ps.piece.hex.Read()) {
      var high, rest := ps.piece.hex, ps.rest;
      PairSpelled(c, i, high, rest.piece.hex);
      PairSpelled(c, i, rest.piece.hex, high);
      assert AllGrammatical(rest.rest) && Spelled(c, i + 6, rest, j) && Spelled(c, i + 12, rest.rest, j);
      JoinedSpelled(c, i + 12, rest.rest, j);
    } else if ps.Then? {
      JoinedSpelled(c, i + |Spell(ps.piece)|, ps.rest, j);
    }
  }

  lemma {:induction false} ApartSpelled(c: bytes, i: nat, ps: Pieces, j: nat)
    requires AllProper(ps) && Spelled(c, i, ps, j)
    ensures Spelled(c, i, Apart(ps), j)
    decreases ps
  {
    hide At, Spell, Formed, Legal;
    if ps.Then? && ps.piece.Pair? {
      var high, low, rest := ps.piece.high, ps.piece.low, ps.rest;
      PairSpelled(c, i, high, low);
      PairSpelled(c, i, low, high);
      ApartSpelled(c, i + 12, rest, j);
      assert Spelled(c, i + 6, Then(Unit(low), Apart(rest)), j);
    } else if ps.Then? {
      ApartSpelled(c, i + |Spell(ps.piece)|, ps.rest, j);
    }
  }

  lemma {:induction false} GrammaticalSpelled(c: bytes, i: nat, ps: Pieces, end: nat)
    requires AllGrammatical(ps) && Spelled(c, i, ps, end) && end < |c|
    ensures AllFormed(ps) && DigitsFollow(c, i, end) && NoControls(c, i, end)
    decreases ps
  {
    hide DigitsFollow, Formed, Spell, At;
    match ps
    case Last => NothingFollows(c, end);
    case Then(p, rest) =>
      GrammaticalSpelled(c, i + |Spell(p)|, rest, end);
      DigitsOverPiece(c, i, p, end);
      PieceBytes(c, i, p);
  }

  /** A text can be taken apart by the grammar in only one way. */
  lemma {:induction false} OneSpelling(c: bytes, i: nat, ps: Pieces, qs: Pieces, end: nat)
    requires AllGrammatical(ps) && Spelled(c, i, ps, end) && AllGrammatical(qs) && Spelled(c, i, qs, end)
    ensures ps == qs
    decreases ps
  {
    hide At, Spell;
    if ps.Then? && qs.Then? {
      OnePiece(c, i, ps.piece, qs.piece);
      OneSpelling(c, i + |Spell(ps.piece)|, ps.rest, qs.rest, end);
    }
  }

  lemma OnePiece(c: bytes, i: nat, p: Piece, q: Piece)
    requires Grammatical(p) && Grammatical(q) && At(c, i, Spell(p)) && At(c, i, Spell(q))
    ensures p == q
  {
    hide At;
    FirstBytes(c, i, p);
    FirstBytes(c, i, q);
  }

  lemma FirstBytes(c: bytes, i: nat, p: Piece)
    requires Grammatical(p) && At(c, i, Spell(p))
    ensures i < |c| && (p.Plain? ==> c[i] == p.b) && (!p.Plain? ==> c[i] == BACKSLASH && i + 1 < |c|)
    ensures p.Short? ==> c[i + 1] == p.letter
    ensures p.Unit? ==> i + 6 <= |c| && c[i + 1] == LOWER_U && p.hex == Hex4(c[i + 2], c[i + 3], c[i + 4], c[i + 5])
  {
    match p {
      case Plain(b) => AtIndex(c, i, Spell(p), 0);
      case Short(letter) => AtIndex(c, i, Spell(p), 1);
      case Unit(hex) => EscapedAt(c, i, hex);
    }
  }

  /** A literal by the grammar of RFC 8259 section 7, spelled in these pieces and ended by the quote at `end`. */
  predicate GrammarLiteral(c: bytes, off: nat, ps: Pieces, end: nat) {
    end < |c| && c[end] == QUOTE && AllGrammatical(ps) && Spelled(c, off + 1, ps, end)
  }

  lemma ProperAccepted(c: bytes, off: nat, end: nat, ps: Pieces)
    requires Terminated(c) && off < |c| && c[off] == QUOTE && GrammarLiteral(c, off, ps, end) && Paired(ps)
    ensures ParseString(c, off) == Some((MeanAll(Joined(ps)), end + 1))
  {
    hide Spelled, MeanAll, ParseString, Joined;
    JoinedSpelled(c, off + 1, ps, end);
    ProperIsLegal(Joined(ps));
    StringMeaning(c, off, Joined(ps), end);
  }

  lemma AcceptedProper(c: bytes, off: nat, end: nat) returns (ps: Pieces)
    requires Terminated(c) && off < end < |c| && c[off] == QUOTE
    requires ParseString(c, off).Some? && ParseString(c, off).value.1 == end + 1
    requires DigitsFollow(c, off + 1, end) && NoControls(c, off + 1, end)
    ensures GrammarLiteral(c, off, ps, end) && Paired(ps)
  {
    hide Contents, DigitsFollow, Spelled, AllProper, NoControls;
    PiecesAreProper(c, off + 1, end);
    ps := Apart(PiecesFrom(c, off + 1, end));
    ApartSpelled(c, off + 1, PiecesFrom(c, off + 1, end), end);
  }

  /** How the code's literals and those of RFC 8259 section 7 compare: a literal by the grammar whose surrogates are all
      paired is one that the code accepts, in which digits follow every \u and no raw control byte stands. */
  lemma ProperExactly(c: bytes, off: nat, end: nat)
    requires Terminated(c) && off < end < |c| && c[off] == QUOTE
    ensures (exists ps :: GrammarLiteral(c, off, ps, end) && Paired(ps))
       <==> ParseString(c, off).Some? && ParseString(c, off).value.1 == end + 1 &&
            DigitsFollow(c, off + 1, end) && NoControls(c, off + 1, end)
  {
    hide ParseString, DigitsFollow, NoControls, Spelled, Paired;
    if ps :| GrammarLiteral(c, off, ps, end) && Paired(ps) {
      ProperAccepted(c, off, end, ps);
      GrammaticalSpelled(c, off + 1, ps, end);
    }
    if ParseString(c, off).Some? && ParseString(c, off).value.1 == end + 1 &&
       DigitsFollow(c, off + 1, end) && NoControls(c, off + 1, end) {
      var ps := AcceptedProper(c, off, end);
    }
  }

  /** The literals of the grammar that the code rejects are exactly those with a lone surrogate; all others it reads as
      what their characters mean. */
  lemma GrammarAccepted(c: bytes, off: nat, ps: Pieces, end: nat)
    requires Terminated(c) && off < |c| && c[off] == QUOTE && GrammarLiteral(c, off, ps, end)
    ensures ParseString(c, off).Some? <==> Paired(ps)
    ensures Paired(ps) ==> ParseString(c, off) == Some((MeanAll(Joined(ps)), end + 1))
  {
    hide ClosingQuote, Contents, DigitsFollow, NoControls, Spelled, Paired, MeanAll, Joined;
    SpelledForward(c, off + 1, ps, end);
    if Paired(ps) {
      ProperAccepted(c, off, end, ps);
    }
    if ParseString(c, off).Some? {
      GrammaticalSpelled(c, off + 1, ps, end);
      ClosingQuoteOver(c, off + 1, ps, end);
      ClosingQuoteHere(c, end);
      var qs := AcceptedProper(c, off, end);
      OneSpelling(c, off + 1, ps, qs, end);
    }
  }

  lemma SpelledForward(c: bytes, i: nat, ps: Pieces, j: nat)
    ensures Spelled(c, i, ps, j) ==> i <= j
  {
  }

  lemma ClosingQuoteHere(c: bytes, i: nat)
    requires i < |c| && c[i] == QUOTE
    ensures ClosingQuote(c, i) == Some(i)
  {
  }

  /** The text "\uzzzz" with its quotes and terminator. */
  const BAD_DIGITS: bytes := [QUOTE, BACKSLASH, LOWER_U, 122, 122, 122, 122, QUOTE, NUL]

  /** It is no literal by RFC 8259, and the code reads it as a string of one NUL. */
  lemma BadDigitsReadAsNul()
    ensures ParseString(BAD_DIGITS, 0) == Some(([NUL], 8))
    ensures forall ps :: !GrammarLiteral(BAD_DIGITS, 0, ps, 7)
  {
    var c, junk := BAD_DIGITS, Hex4(122, 122, 122, 122);
    assert ClosingQuote(c, 4) == ClosingQuote(c, 5) == ClosingQuote(c, 6) == ClosingQuote(c, 7) == Some(7);
    assert ClosingQuote(c, 1) == ClosingQuote(c, 3) == Some(7);
    BadDigits(c, 1, 7);
    ContentsEnd(c, 7, 7);
    var nul: bytes := [NUL];
    assert Encode(0) == nul && nul + [] == nul;
    assert Contents(c, 1, 7) == Some(nul);
    forall ps ensures !GrammarLiteral(c, 0, ps, 7) {
      if GrammarLiteral(c, 0, ps, 7) {
        GrammaticalSpelled(c, 1, ps, 7);
      }
    }
  }

  /** The text "\uDEAD" with its quotes and terminator. */
  const LONE_SURROGATE: bytes := [QUOTE, BACKSLASH, LOWER_U, 68, 69, 65, 68, QUOTE, NUL]

  /** It is a literal by the grammar of RFC 8259, and the code rejects it. */
  lemma LoneSurrogateIsGrammatical()
    ensures GrammarLiteral(LONE_SURROGATE, 0, Then(Unit(Hex4(68, 69, 65, 68)), Last), 7)
    ensures ParseString(LONE_SURROGATE, 0) == None
  {
    var c, hex := LONE_SURROGATE, Hex4(68, 69, 65, 68);
    EscapeIsThere(c, 1);
    assert LowSurrogate(hex.Read());
    var ps := Then(Unit(hex), Last);
    assert Spelled(c, 7, Last, 7) && Spelled(c, 1, ps, 7);
    GrammarAccepted(c, 0, ps, 7);
  }

  // ---------------------------------------------------------------- printed strings

  /** The printer writes a byte as itself unless it is a control character, a quotation mark or a backslash. Those are
      written in their short form, when there is one, and else by the digits of their number. */
  predicate WrittenAs(b: byte, p: Piece) {
    match p
    case Plain(c) => c == b && 32 <= b && b != 34 && b != 92
    case Short(letter) => letter in SHORT_FORMS && SHORT_FORMS[letter] == b && letter != 47
    case Unit(hex) => b < 32 && b !in SHORT_FORMS.Values && hex.AreDigits() && hex.Value() == b
    case Pair(_, _) => false
  }

  function PieceOf(b: byte): (p: Piece)
    requires b != NUL
    ensures Proper(p) && Spell(p) == EscapeByte(b) && Mean(p) == [b] && WrittenAs(b, p)
  {
    ShortForms(b);
    if b > 31 && b != QUOTE && b != BACKSLASH then Plain(b)
    else if ShortEscape(b).Some? then Short(ShortEscape(b).value)
    else Unit(Hex4(48, 48, HexChar(b / 16), HexChar(b % 16)))
  }

  lemma ShortForms(b: byte)
    ensures ShortEscape(b).Some? ==>
      ShortEscape(b).value in SHORT_FORMS && SHORT_FORMS[ShortEscape(b).value] == b && ShortEscape(b).value != 47
    ensures ShortEscape(b).None? && b != 47 ==> b !in SHORT_FORMS.Values
  {
    var m := SHORT_FORMS;
    assert 34 in m && 92 in m && 98 in m && 102 in m && 110 in m && 114 in m && 116 in m;
  }

  /** The pieces in which the printer spells a string, and what they mean. */
  function PiecesOf(s: bytes): (ps: Pieces)
    requires NulFree(s)
    ensures AllLegal(ps) && AllProper(ps) && MeanAll(ps) == s && AllWritten(s, ps)
  {
    if s == [] then Last else Then(PieceOf(s[0]), PiecesOf(s[1..]))
  }

  /** Every byte of a string is written by its piece. */
  predicate AllWritten(s: bytes, ps: Pieces) {
    if s == [] then ps == Last else ps.Then? && WrittenAs(s[0], ps.piece) && AllWritten(s[1..], ps.rest)
  }

  lemma AtEnds(c: bytes, i: nat, t: bytes)
    ensures At(c, i, t) ==> i + |t| <= |c|
  {
  }

  lemma {:induction false} EscapeIsSpelled(c: bytes, i: nat, s: bytes)
    requires NulFree(s) && At(c, i, Escape(s))
    ensures Spelled(c, i, PiecesOf(s), i + |Escape(s)|)
    decreases |s|
  {
    hide At, EscapeByte, PieceOf, Legal, Proper, WrittenAs, Spell, Mean;
    if s == [] {
      AtEnds(c, i, Escape(s));
    } else {
      AtConcat(c, i, EscapeByte(s[0]), Escape(s[1..]));
      EscapeIsSpelled(c, i + |EscapeByte(s[0])|, s[1..]);
    }
  }

  lemma OneByteAt(c: bytes, off: nat, b: byte)
    ensures At(c, off, [b]) <==> off < |c| && c[off] == b
  {
  }

  /** Reading a printed string gives back what C sees of it: all of it when it holds no NUL. */
  lemma ReadQuoted(c: bytes, off: nat, s: bytes)
    requires Terminated(c) && At(c, off, Quoted(s))
    ensures ParseString(c, off) == Some((CString(s), off + |Quoted(s)|))
  {
    hide At, Escape, Spelled, AllLegal, MeanAll, PiecesOf, CString, ParseString;
    OneByteAt(c, off, QUOTE);
    OneByteAt(c, off + 1 + |Escape(CString(s))|, QUOTE);
    AtConcat(c, off, [QUOTE] + Escape(CString(s)), [QUOTE]);
    AtConcat(c, off, [QUOTE], Escape(CString(s)));
    EscapeIsSpelled(c, off + 1, CString(s));
    StringMeaning(c, off, PiecesOf(CString(s)), off + 1 + |Escape(CString(s))|);
  }

  /** What is printed of a string between its quotes is spelled in pieces, one for each byte that C sees of it, written
      as they should be, and they mean these bytes. */
  lemma PrintedIsWritten(c: bytes, off: nat, s: bytes)
    requires At(c, off, Quoted(s))
    ensures var ps, end := PiecesOf(CString(s)), off + |Quoted(s)| - 1;
      off < end < |c| && c[off] == 34 && c[end] == 34 && Spelled(c, off + 1, ps, end) &&
      AllProper(ps) && AllLegal(ps) && MeanAll(ps) == CString(s) && AllWritten(CString(s), ps)
  {
    hide At, Escape, Spelled, AllLegal, AllProper, AllWritten, MeanAll, PiecesOf, CString;
    OneByteAt(c, off, QUOTE);
    OneByteAt(c, off + 1 + |Escape(CString(s))|, QUOTE);
    AtConcat(c, off, [QUOTE] + Escape(CString(s)), [QUOTE]);
    AtConcat(c, off, [QUOTE], Escape(CString(s)));
    EscapeIsSpelled(c, off + 1, CString(s));
  }
}
