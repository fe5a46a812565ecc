/** The layout of printed text, byte by byte, formatted or on one line. */
module PrintedLayout {
  import opened Bytes
  import opened JsonText

  /** As many tabs as the nesting is deep, when the text is formatted. */
  function Indented(fmt: bool, d: nat): bytes { if fmt then seq(d, _ => 9) else [] }

  lemma TabsAreTabs(fmt: bool, d: nat)
    ensures (if fmt then Tabs(d) else []) == Indented(fmt, d)
  {
  }

  /** null, true, false and the digits of a number from 0 to 9, with a minus in front for a negative one. */
  lemma ScalarLayout(fmt: bool, d: nat, n: int)
    requires 0 <= n < 10
    ensures Text(Null, fmt, d) == [110, 117, 108, 108] && Text(True, fmt, d) == [116, 114, 117, 101]
    ensures Text(False, fmt, d) == [102, 97, 108, 115, 101]
    ensures Text(Number(n), fmt, d) == [48 + n] && (n > 0 ==> Text(Number(-n), fmt, d) == [45, 48 + n])
  {
  }

  /** A number of several digits has the digits of its tenth in front of its last one. */
  lemma NumberLayout(fmt: bool, d: nat, n: int)
    requires 10 <= n < INTEGER_BOUND
    ensures Text(Number(n), fmt, d) == Text(Number(n / 10), fmt, d) + [48 + n % 10]
    ensures Text(Number(-n), fmt, d) == [45] + Text(Number(n), fmt, d)
  {
  }

  /** An array: its elements in brackets, with commas between them, behind which there is a space in formatted text. */
  lemma ArrayLayout(items: Items, fmt: bool, d: nat)
    requires PrintableItems(items)
    ensures Text(Array(items), fmt, d) == [91] + ItemsText(items, fmt, d + 1) + [93]
    ensures items.NoItem? ==> ItemsText(items, fmt, d + 1) == []
    ensures items.Item? && items.next.NoItem? ==> ItemsText(items, fmt, d + 1) == Text(items.value, fmt, d + 1)
    ensures items.Item? && items.next.Item? ==>
      ItemsText(items, fmt, d + 1)
      == Text(items.value, fmt, d + 1) + ((if fmt then [44, 32] else [44]) + ItemsText(items.next, fmt, d + 1))
  {
  }

  /** An object: its members in braces. Formatted, there is a new line behind the opening brace and behind every member,
      and the closing brace is indented by the depth of the object. */
  lemma ObjectLayout(members: Members, fmt: bool, d: nat)
    requires PrintableMembers(members)
    ensures Text(Object(members), fmt, d)
         == (if fmt then [123, 10] else [123]) + MembersText(members, fmt, d + 1) + (Indented(fmt, d) + [125])
    ensures members.NoMember? ==> MembersText(members, fmt, d + 1) == []
  {
    hide Text, MembersText;
    TabsAreTabs(fmt, d);
    ObjectText(members, fmt, d);
    NoMembersText(members, fmt, d + 1);
  }

  /** A member: indented, its key, a colon, which is followed by a tab in formatted text, its value, and a comma if
      another member follows. */
  lemma MemberLayout(members: Members, fmt: bool, d: nat)
    requires PrintableMembers(members) && members.Member?
    ensures MembersText(members, fmt, d)
         == Indented(fmt, d) + (Quoted(members.key) + (if fmt then [58, 9] else [58])) +
            (Text(members.value, fmt, d) +
             ((if members.next.Member? then [44] else []) + (if fmt then [10] else [])
              + MembersText(members.next, fmt, d)))
  {
    hide Text, MembersText, Quoted;
    TabsAreTabs(fmt, d);
    MembersTextCons(members, fmt, d);
  }
}
