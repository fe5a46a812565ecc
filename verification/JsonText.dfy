/** JSON values and the text the printer renders for them, formatted or not. */
module JsonText {
  import opened Bytes
  import opened Unicode

  /** A value; the children of an array or object form a list linked through `next`, as in the library.
      `Decimal` keeps the spelling of a number that is not an integer of at most fifteen digits. */
  datatype Value =
    | Null
    | False
    | True
    | Number(n: int)
    | Decimal(spelling: bytes)
    | Str(s: bytes)
    | Array(items: Items)
    | Object(members: Members)

  datatype Items = NoItem | Item(value: Value, next: Items)

  datatype Members = NoMember | Member(key: bytes, value: Value, next: Members)

  const NULL_TEXT: bytes := [110, 117, 108, 108]
  const FALSE_TEXT: bytes := [102, 97, 108, 115, 101]
  const TRUE_TEXT: bytes := [116, 114, 117, 101]

  const INTEGER_BOUND: int := 1_000_000_000_000_000

  /** The values whose print is modelled: integers of at most fifteen digits and no other numbers. */
  predicate Printable(v: Value) {
    match v
    case Number(n) => -INTEGER_BOUND < n < INTEGER_BOUND
    case Decimal(_) => false
    case Array(items) => PrintableItems(items)
    case Object(members) => PrintableMembers(members)
    case _ => true
  }

  predicate PrintableItems(items: Items) {
    items.Item? ==> Printable(items.value) && PrintableItems(items.next)
  }

  predicate PrintableMembers(members: Members) {
    members.Member? ==> Printable(members.value) && PrintableMembers(members.next)
  }

  /** No string or key contains a NUL, so that C strings hold all of it. */
  predicate NulFreeStrings(v: Value) {
    match v
    case Str(s) => NulFree(s)
    case Array(items) => NulFreeItems(items)
    case Object(members) => NulFreeMembers(members)
    case _ => true
  }

  predicate NulFreeItems(items: Items) {
    items.Item? ==> NulFreeStrings(items.value) && NulFreeItems(items.next)
  }

  predicate NulFreeMembers(members: Members) {
    members.Member? ==> NulFree(members.key) && NulFreeStrings(members.value) && NulFreeMembers(members.next)
  }

  /** How deeply arrays and objects nest in a value. */
  function Nesting(v: Value): nat {
    match v
    case Array(items) => 1 + ItemsNesting(items)
    case Object(members) => 1 + MembersNesting(members)
    case _ => 0
  }

  function Max(a: nat, b: nat): nat { if a < b then b else a }

  function ItemsNesting(items: Items): nat {
    match items
    case NoItem => 0
    case Item(v, next) => Max(Nesting(v), ItemsNesting(next))
  }

  function MembersNesting(members: Members): nat {
    match members
    case NoMember => 0
    case Member(_, v, next) => Max(Nesting(v), MembersNesting(next))
  }

  // ---------------------------------------------------------------- numbers

  predicate Digit(b: byte) { 48 <= b <= 57 }

  function DigitsOf(n: nat): (r: bytes)
    ensures 1 <= |r| && forall k :: 0 <= k < |r| ==> Digit(r[k])
  {
    if n < 10 then [48 + n] else DigitsOf(n / 10) + [48 + n % 10]
  }

  function NumberText(n: int): bytes {
    if n < 0 then [MINUS] + DigitsOf(-n) else DigitsOf(n)
  }

  // ---------------------------------------------------------------- strings

  /** The letter of the two-character escape of a byte, if it has one. */
  function ShortEscape(b: byte): Option<byte> {
    if b == QUOTE || b == BACKSLASH then Some(b)
    else if b == 8 then Some(98)
    else if b == 12 then Some(102)
    else if b == NEWLINE then Some(110)
    else if b == RETURN then Some(114)
    else if b == TAB then Some(116)
    else None
  }

  function EscapeByte(b: byte): (r: bytes)
    ensures 1 <= |r| <= 6
  {
    if b > 31 && b != QUOTE && b != BACKSLASH then [b]
    else if ShortEscape(b).Some? then [BACKSLASH, ShortEscape(b).value]
    else [BACKSLASH, LOWER_U, 48, 48, HexChar(b / 16), HexChar(b % 16)]
  }

  function Escape(s: bytes): (r: bytes)
    ensures |s| <= |r|
  {
    if s == [] then [] else EscapeByte(s[0]) + Escape(s[1..])
  }

  /** A string literal; the printer sees the C string, which ends at the first NUL. */
  function Quoted(s: bytes): bytes {
    [QUOTE] + Escape(CString(s)) + [QUOTE]
  }

  // ---------------------------------------------------------------- values

  function Tabs(n: nat): (r: bytes)
    ensures |r| == n && forall k :: 0 <= k < n ==> r[k] == TAB
  {
    if n == 0 then [] else [TAB] + Tabs(n - 1)
  }

  /** The text of a value printed at nesting depth `d`. */
  function Text(v: Value, fmt: bool, d: nat): bytes
    requires Printable(v)
    decreases v
  {
    match v
    case Null => NULL_TEXT
    case False => FALSE_TEXT
    case True => TRUE_TEXT
    case Number(n) => NumberText(n)
    case Str(s) => Quoted(s)
    case Array(items) => [OPEN_BRACKET] + ItemsText(items, fmt, d + 1) + [CLOSE_BRACKET]
    case Object(members) =>
      ObjectOpen(fmt) + MembersText(members, fmt, d + 1) + ObjectClose(fmt, d)
  }

  function Separator(fmt: bool): bytes { if fmt then [COMMA, SPACE] else [COMMA] }
  function ObjectOpen(fmt: bool): bytes { if fmt then [OPEN_BRACE, NEWLINE] else [OPEN_BRACE] }
  function ObjectClose(fmt: bool, d: nat): bytes { (if fmt then Tabs(d) else []) + [CLOSE_BRACE] }
  function KeyOpen(fmt: bool, d: nat): bytes { if fmt then Tabs(d) else [] }
  function KeyClose(fmt: bool): bytes { if fmt then [COLON, TAB] else [COLON] }

  /** A key with its indentation and its colon. */
  function KeyText(key: bytes, fmt: bool, d: nat): bytes {
    KeyOpen(fmt, d) + (Quoted(key) + KeyClose(fmt))
  }

  function MemberClose(last: bool, fmt: bool): bytes {
    (if last then [] else [COMMA]) + (if fmt then [NEWLINE] else [])
  }

  function ItemsText(items: Items, fmt: bool, d: nat): bytes
    requires PrintableItems(items)
    decreases items
  {
    match items
    case NoItem => []
    case Item(v, NoItem) => Text(v, fmt, d)
    case Item(v, next) => Text(v, fmt, d) + (Separator(fmt) + ItemsText(next, fmt, d))
  }

  function MembersText(members: Members, fmt: bool, d: nat): bytes
    requires PrintableMembers(members)
    decreases members
  {
    match members
    case NoMember => []
    case Member(key, v, next) =>
      KeyText(key, fmt, d) + (Text(v, fmt, d) + (MemberClose(next.NoMember?, fmt) + MembersText(next, fmt, d)))
  }

  // ---------------------------------------------------------------- unfolding the text of lists

  lemma ArrayText(items: Items, fmt: bool, d: nat)
    requires PrintableItems(items)
    ensures Text(Array(items), fmt, d) == [OPEN_BRACKET] + ItemsText(items, fmt, d + 1) + [CLOSE_BRACKET]
    ensures items.NoItem? ==> ItemsText(items, fmt, d + 1) == []
  {
  }

  lemma ObjectText(members: Members, fmt: bool, d: nat)
    requires PrintableMembers(members)
    ensures Text(Object(members), fmt, d) == ObjectOpen(fmt) + MembersText(members, fmt, d + 1) + ObjectClose(fmt, d)
  {
  }

  lemma NoMembersText(members: Members, fmt: bool, d: nat)
    requires PrintableMembers(members)
    ensures members.NoMember? ==> MembersText(members, fmt, d) == []
  {
  }

  lemma MembersTextCons(members: Members, fmt: bool, d: nat)
    requires PrintableMembers(members) && members.Member?
    ensures MembersText(members, fmt, d) == KeyText(members.key, fmt, d)
      + (Text(members.value, fmt, d) + (MemberClose(members.next.NoMember?, fmt) + MembersText(members.next, fmt, d)))
  {
  }

  lemma ItemsTextCons(items: Items, fmt: bool, d: nat)
    requires PrintableItems(items) && items.Item?
    ensures ItemsText(items, fmt, d) == Text(items.value, fmt, d)
      + (if items.next.NoItem? then [] else Separator(fmt) + ItemsText(items.next, fmt, d))
    ensures items.next.NoItem? ==> ItemsText(items, fmt, d) == Text(items.value, fmt, d)
  {
  }

  lemma NoItemsText(items: Items, fmt: bool, d: nat)
    requires PrintableItems(items)
    ensures items.NoItem? ==> ItemsText(items, fmt, d) == []
  {
  }
}
