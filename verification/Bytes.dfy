/** Bytes, C strings and the few optional results used throughout the JSON model. */
module Bytes {

  type byte = b: int | 0 <= b < 256
  type bytes = seq<byte>

  datatype Option<+T> = None | Some(value: T)

  const NUL: byte := 0
  const TAB: byte := 9
  const NEWLINE: byte := 10
  const RETURN: byte := 13
  const SPACE: byte := 32
  const QUOTE: byte := 34
  const STAR: byte := 42
  const PLUS: byte := 43
  const COMMA: byte := 44
  const MINUS: byte := 45
  const DOT: byte := 46
  const SLASH: byte := 47
  const COLON: byte := 58
  const OPEN_BRACKET: byte := 91
  const BACKSLASH: byte := 92
  const CLOSE_BRACKET: byte := 93
  const LOWER_U: byte := 117
  const OPEN_BRACE: byte := 123
  const CLOSE_BRACE: byte := 125

  /** The text `t` stands in `c` at offset `off`. */
  predicate At(c: bytes, off: nat, t: bytes)
    ensures At(c, off, t) ==> off + |t| <= |c|
    decreases |t|
  {
    if t == [] then off <= |c| else off < |c| && c[off] == t[0] && At(c, off + 1, t[1..])
  }

  /** A C string together with its terminator. */
  predicate Terminated(c: bytes) {
    0 < |c| && c[|c| - 1] == NUL
  }

  predicate NulFree(s: bytes) {
    NUL !in s
  }

  /** The part of a byte string that C code sees: everything before the first NUL. */
  function CString(s: bytes): (r: bytes)
    ensures NulFree(r) && r <= s
    ensures |r| < |s| ==> s[|r|] == NUL
    ensures NulFree(s) ==> r == s
  {
    if s == [] || s[0] == NUL then [] else [s[0]] + CString(s[1..])
  }

  /** The recursive definition says that the text is a slice. */
  lemma {:induction false} AtIsSlice(c: bytes, off: nat, t: bytes)
    ensures At(c, off, t) <==> off + |t| <= |c| && c[off..off + |t|] == t
    decreases |t|
  {
    if t != [] {
      AtIsSlice(c, off + 1, t[1..]);
      if off + |t| <= |c| {
        assert c[off..off + |t|] == [c[off]] + c[off + 1..off + |t|];
        assert t == [t[0]] + t[1..];
      }
    }
  }

  /** A concatenation matches when its parts match one after the other. */
  lemma {:induction false} AtConcat(c: bytes, off: nat, s: bytes, t: bytes)
    ensures At(c, off, s + t) <==> At(c, off, s) && At(c, off + |s|, t)
    decreases |s|
  {
    if s == [] {
      assert s + t == t;
    } else {
      AtConcat(c, off + 1, s[1..], t);
      assert (s + t)[1..] == s[1..] + t;
    }
  }

  lemma {:induction false} AtIndex(c: bytes, off: nat, t: bytes, k: nat)
    requires At(c, off, t) && k < |t|
    ensures c[off + k] == t[k]
    decreases k
  {
    if k > 0 {
      AtIndex(c, off + 1, t[1..], k - 1);
    }
  }
}
