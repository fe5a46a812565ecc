/** The texts that the parser accepts, described by the places of their brackets, commas, colons and white space. */
module JsonTrees {
  import opened Bytes
  import opened JsonText
  import opened JsonGrammar

  /** A value in a text: a name, a number or a string up to `to`, or brackets with what stands between them. */
  datatype Tree = Leaf(value: Value, to: nat) | Brackets(items: Elements, to: nat) | Braces(members: Fields, to: nat)

  /** An element begins at `at`, and the comma or bracket behind it is at `close`. */
  datatype Elements = NoElement | Element(at: nat, tree: Tree, close: nat, next: Elements)

  /** A member has its key at `keyAt`, its colon at `colon` and its value at `at`. */
  datatype Fields =
    | NoField
    | Field(keyAt: nat, key: bytes, keyTo: nat, colon: nat, at: nat, tree: Tree, close: nat, next: Fields)

  function ValueOf(t: Tree): Value {
    match t
    case Leaf(v, _) => v
    case Brackets(items, _) => Array(ItemsOf(items))
    case Braces(members, _) => Object(MembersOf(members))
  }

  function ItemsOf(items: Elements): Items {
    match items
    case NoElement => NoItem
    case Element(_, tree, _, next) => Item(ValueOf(tree), ItemsOf(next))
  }

  function MembersOf(members: Fields): Members {
    match members
    case NoField => NoMember
    case Field(_, key, _, _, _, tree, _, next) => Member(key, ValueOf(tree), MembersOf(next))
  }

  /** Between two places there are only white space and control characters. */
  predicate BlankBetween(c: bytes, i: nat, j: nat) { i <= j < |c| && forall k :: i <= k < j ==> c[k] <= 32 }

  predicate NameAt(c: bytes, i: nat, name: bytes, to: nat) { to == i + |name| && to <= |c| && c[i..to] == name }

  /** A name, a number or a string. */
  predicate IsLeaf(c: bytes, i: nat, v: Value, to: nat)
    requires Terminated(c) && i < |c|
  {
    (v == Null && NameAt(c, i, [110, 117, 108, 108], to)) ||
    (v == True && NameAt(c, i, [116, 114, 117, 101], to)) ||
    (v == False && NameAt(c, i, [102, 97, 108, 115, 101], to)) ||
    (c[i] == 34 && v.Str? && ParseString(c, i) == Some((v.s, to))) ||
    ((c[i] == 45 || 48 <= c[i] <= 57) && ParseNumber(c, i) == Some((v, to)))
  }

  /** The value at `i` of the text, inside `depth` brackets and braces. */
  predicate IsTree(c: bytes, i: nat, t: Tree, depth: nat)
    requires Terminated(c)
    decreases t
  {
    i < |c| &&
    match t
    case Leaf(v, to) => IsLeaf(c, i, v, to)
    case Brackets(items, to) =>
      c[i] == 91 && depth < 1000 && i + 1 < |c| && 0 < to <= |c| && c[to - 1] == 93 &&
      if items.NoElement? then BlankBetween(c, i + 1, to - 1) else AreElements(c, i + 1, items, to, depth + 1)
    case Braces(members, to) =>
      c[i] == 123 && depth < 1000 && i + 1 < |c| && 0 < to <= |c| && c[to - 1] == 125 &&
      if members.NoField? then BlankBetween(c, i + 1, to - 1) else AreFields(c, i + 1, members, to, depth + 1)
  }

  /** Elements with a comma after each but the last, behind which the bracket is. */
  predicate AreElements(c: bytes, i: nat, items: Elements, to: nat, depth: nat)
    requires Terminated(c)
    decreases items
  {
    items.Element? && BlankBetween(c, i, items.at) && IsTree(c, items.at, items.tree, depth) &&
    BlankBetween(c, items.tree.to, items.close) &&
    if items.next.NoElement? then c[items.close] == 93 && to == items.close + 1
    else c[items.close] == 44 && AreElements(c, items.close + 1, items.next, to, depth)
  }

  /** Members, each a string, a colon and a value, with a comma after each but the last, behind which the brace is. */
  predicate AreFields(c: bytes, i: nat, members: Fields, to: nat, depth: nat)
    requires Terminated(c)
    decreases members
  {
    members.Field? && BlankBetween(c, i, members.keyAt) &&
      ParseString(c, members.keyAt) == Some((members.key, members.keyTo)) &&
    BlankBetween(c, members.keyTo, members.colon) && c[members.colon] == 58 &&
    BlankBetween(c, members.colon + 1, members.at) && IsTree(c, members.at, members.tree, depth) &&
    BlankBetween(c, members.tree.to, members.close) &&
    if members.next.NoField? then c[members.close] == 125 && to == members.close + 1
    else c[members.close] == 44 && AreFields(c, members.close + 1, members.next, to, depth)
  }

  // ---------------------------------------------------------------- white space

  lemma {:induction false} SkipOver(c: bytes, i: nat, j: nat)
    requires BlankBetween(c, i, j) && (c[j] > 32 || j == |c| - 1)
    ensures Skip(c, i) == j
    decreases j - i
  {
    if i < j {
      SkipOver(c, i + 1, j);
    }
  }

  lemma {:induction false} SkipIs(c: bytes, i: nat)
    requires i < |c|
    ensures BlankBetween(c, i, Skip(c, i))
    decreases |c| - i
  {
    if i < |c| - 1 && c[i] <= 32 {
      SkipIs(c, i + 1);
    }
  }

  lemma NameIsAt(c: bytes, i: nat, name: bytes)
    requires i < |c|
    ensures At(c, i, name) <==> NameAt(c, i, name, i + |name|)
  {
    AtIsSlice(c, i, name);
  }

  lemma Names()
    ensures NULL_TEXT == [110, 117, 108, 108] && TRUE_TEXT == [116, 114, 117, 101]
    ensures FALSE_TEXT == [102, 97, 108, 115, 101]
  {
  }

  /** A name begins with its first letter. */
  lemma FirstLetter(c: bytes, i: nat, name: bytes, to: nat)
    requires NameAt(c, i, name, to) && name != []
    ensures i < |c| && c[i] == name[0]
  {
    assert c[i] == c[i..to][0];
  }

  /** A value does not begin with white space. */
  lemma NoBlankFirst(c: bytes, i: nat, t: Tree, depth: nat)
    requires Terminated(c) && IsTree(c, i, t, depth)
    ensures i < |c| && c[i] > 32
  {
    if t.Leaf? {
      if NameAt(c, i, [110, 117, 108, 108], t.to) {
        FirstLetter(c, i, [110, 117, 108, 108], t.to);
      } else if NameAt(c, i, [116, 114, 117, 101], t.to) {
        FirstLetter(c, i, [116, 114, 117, 101], t.to);
      } else if NameAt(c, i, [102, 97, 108, 115, 101], t.to) {
        FirstLetter(c, i, [102, 97, 108, 115, 101], t.to);
      }
    }
  }

  // ---------------------------------------------------------------- every tree is read

  lemma LeafIsRead(c: bytes, i: nat, v: Value, to: nat, depth: nat)
    requires Terminated(c) && i < |c| && IsLeaf(c, i, v, to)
    ensures JsonGrammar.ParseValue(c, i, depth) == Some((v, to))
  {
    hide At, JsonGrammar.ParseString, JsonGrammar.ParseNumber;
    Names();
    NameIsAt(c, i, NULL_TEXT);
    NameIsAt(c, i, TRUE_TEXT);
    NameIsAt(c, i, FALSE_TEXT);
    NamesApart(c, i);
  }

  lemma NamesApart(c: bytes, i: nat)
    requires i < |c|
    ensures At(c, i, NULL_TEXT) ==> c[i] == 110
    ensures At(c, i, TRUE_TEXT) ==> c[i] == 116
    ensures At(c, i, FALSE_TEXT) ==> c[i] == 102
  {
  }

  /** What the parser does at an opening bracket or brace. */
  lemma AtBracket(c: bytes, i: nat, depth: nat)
    requires Terminated(c) && i + 1 < |c| && c[i] == 91 && depth < 1000
    ensures var k := Skip(c, i + 1);
      JsonGrammar.ParseValue(c, i, depth)
      == if c[k] == 93 then Some((Array(NoItem), k + 1)) else AsArray(JsonGrammar.ParseItems(c, k, depth + 1))
  {
    hide At, Skip, JsonGrammar.ParseItems;
    NamesApart(c, i);
  }

  lemma AtBrace(c: bytes, i: nat, depth: nat)
    requires Terminated(c) && i + 1 < |c| && c[i] == 123 && depth < 1000
    ensures var k := Skip(c, i + 1);
      JsonGrammar.ParseValue(c, i, depth)
      == if c[k] == 125 then Some((Object(NoMember), k + 1)) else AsObject(JsonGrammar.ParseMembers(c, k, depth + 1))
  {
    hide At, Skip, JsonGrammar.ParseMembers;
    NamesApart(c, i);
  }

  /** What it does behind an element, whose comma or bracket is at `k`. */
  lemma AtElement(c: bytes, i: nat, depth: nat, v: Value, e: nat, k: nat)
    requires Terminated(c) && i < |c| && JsonGrammar.ParseValue(c, Skip(c, i), depth) == Some((v, e)) && k == Skip(c, e)
    ensures JsonGrammar.ParseItems(c, i, depth)
         == if c[k] == 44 then WithItem(v, JsonGrammar.ParseItems(c, k + 1, depth))
            else if c[k] == 93 then Some((Item(v, NoItem), k + 1)) else None
  {
    hide Skip, JsonGrammar.ParseValue;
  }

  lemma AtMember(c: bytes, i: nat, depth: nat, key: bytes, e: nat, colon: nat, v: Value, f: nat, k: nat)
    requires Terminated(c) && i < |c| && JsonGrammar.ParseString(c, Skip(c, i)) == Some((key, e))
    requires colon == Skip(c, e) && c[colon] == 58
    requires JsonGrammar.ParseValue(c, Skip(c, colon + 1), depth) == Some((v, f)) && k == Skip(c, f)
    ensures JsonGrammar.ParseMembers(c, i, depth)
         == if c[k] == 44 then WithMember(key, v, JsonGrammar.ParseMembers(c, k + 1, depth))
            else if c[k] == 125 then Some((Member(key, v, NoMember), k + 1)) else None
  {
    hide Skip, JsonGrammar.ParseValue, JsonGrammar.ParseString;
    assert MemberAt(c, i, depth) == Some((key, v, k));
  }

  lemma ElementsFromFirst(c: bytes, i: nat, items: Elements, to: nat, depth: nat)
    requires Terminated(c) && AreElements(c, i, items, to, depth)
    ensures items.Element? && BlankBetween(c, i, items.at) && IsTree(c, items.at, items.tree, depth)
    ensures AreElements(c, items.at, items, to, depth)
  {
    hide IsTree;
  }

  lemma FieldsFromFirst(c: bytes, i: nat, members: Fields, to: nat, depth: nat)
    requires Terminated(c) && AreFields(c, i, members, to, depth)
    ensures members.Field? && BlankBetween(c, i, members.keyAt) && c[members.keyAt] == 34
    ensures AreFields(c, members.keyAt, members, to, depth)
  {
    hide IsTree, JsonGrammar.ParseString;
    KeyFirst(c, members.keyAt);
  }

  lemma {:induction false} TreeIsRead(c: bytes, i: nat, t: Tree, depth: nat)
    requires Terminated(c) && IsTree(c, i, t, depth)
    ensures JsonGrammar.ParseValue(c, i, depth) == Some((ValueOf(t), t.to))
    decreases t
  {
    hide Skip, IsLeaf, AreElements, AreFields, BlankBetween, JsonGrammar.ParseValue, JsonGrammar.ParseItems,
      JsonGrammar.ParseMembers;
    match t
    case Leaf(v, to) => LeafIsRead(c, i, v, to, depth);
    case Brackets(items, to) =>
      AtBracket(c, i, depth);
      if items.NoElement? {
        SkipTo(c, i + 1, to - 1);
      } else {
        ElementsFromFirst(c, i + 1, items, to, depth + 1);
        NoBlankFirst(c, items.at, items.tree, depth + 1);
        NotClosing(c, items.at, items.tree, depth + 1);
        SkipTo(c, i + 1, items.at);
        ElementsAreRead(c, items.at, items, to, depth + 1);
      }
    case Braces(members, to) =>
      AtBrace(c, i, depth);
      if members.NoField? {
        SkipTo(c, i + 1, to - 1);
      } else {
        FieldsFromFirst(c, i + 1, members, to, depth + 1);
        SkipTo(c, i + 1, members.keyAt);
        FieldsAreRead(c, members.keyAt, members, to, depth + 1);
      }
  }

  lemma SkipTo(c: bytes, i: nat, j: nat)
    requires BlankBetween(c, i, j) && c[j] > 32
    ensures i <= j < |c| && Skip(c, i) == j
  {
    SkipOver(c, i, j);
  }

  lemma KeyFirst(c: bytes, i: nat)
    requires Terminated(c) && i < |c| && JsonGrammar.ParseString(c, i).Some?
    ensures c[i] == 34
  {
  }

  /** A value does not begin with a closing bracket. */
  lemma NotClosing(c: bytes, i: nat, t: Tree, depth: nat)
    requires Terminated(c) && IsTree(c, i, t, depth)
    ensures i < |c| && c[i] != 93
  {
    if t.Leaf? {
      if NameAt(c, i, [110, 117, 108, 108], t.to) {
        FirstLetter(c, i, [110, 117, 108, 108], t.to);
      } else if NameAt(c, i, [116, 114, 117, 101], t.to) {
        FirstLetter(c, i, [116, 114, 117, 101], t.to);
      } else if NameAt(c, i, [102, 97, 108, 115, 101], t.to) {
        FirstLetter(c, i, [102, 97, 108, 115, 101], t.to);
      }
    }
  }

  lemma {:induction false} ElementsAreRead(c: bytes, i: nat, items: Elements, to: nat, depth: nat)
    requires Terminated(c) && AreElements(c, i, items, to, depth)
    ensures JsonGrammar.ParseItems(c, i, depth) == Some((ItemsOf(items), to))
    decreases items
  {
    hide Skip, IsTree, BlankBetween, JsonGrammar.ParseValue, JsonGrammar.ParseItems;
    NoBlankFirst(c, items.at, items.tree, depth);
    SkipTo(c, i, items.at);
    TreeIsRead(c, items.at, items.tree, depth);
    SkipTo(c, items.tree.to, items.close);
    AtElement(c, i, depth, ValueOf(items.tree), items.tree.to, items.close);
    if !items.next.NoElement? {
      ElementsAreRead(c, items.close + 1, items.next, to, depth);
    }
  }

  lemma {:induction false} FieldsAreRead(c: bytes, i: nat, members: Fields, to: nat, depth: nat)
    requires Terminated(c) && AreFields(c, i, members, to, depth)
    ensures JsonGrammar.ParseMembers(c, i, depth) == Some((MembersOf(members), to))
    decreases members
  {
    hide Skip, IsTree, BlankBetween, JsonGrammar.ParseValue, JsonGrammar.ParseMembers, JsonGrammar.ParseString;
    KeyFirst(c, members.keyAt);
    SkipTo(c, i, members.keyAt);
    SkipTo(c, members.keyTo, members.colon);
    NoBlankFirst(c, members.at, members.tree, depth);
    SkipTo(c, members.colon + 1, members.at);
    TreeIsRead(c, members.at, members.tree, depth);
    SkipTo(c, members.tree.to, members.close);
    AtMember(c, i, depth, members.key, members.keyTo, members.colon, ValueOf(members.tree), members.tree.to,
      members.close);
    if !members.next.NoField? {
      FieldsAreRead(c, members.close + 1, members.next, to, depth);
    }
  }

  // ---------------------------------------------------------------- all that is read is a tree

  /** What the parser does elsewhere: it reads a leaf. */
  lemma LeafRead(c: bytes, i: nat, depth: nat)
    requires Terminated(c) && i < |c| && c[i] != 91 && c[i] != 123
    ensures var r := JsonGrammar.ParseValue(c, i, depth); r.Some? ==> IsLeaf(c, i, r.value.0, r.value.1)
  {
    hide At, JsonGrammar.ParseString, JsonGrammar.ParseNumber;
    Names();
    NameIsAt(c, i, NULL_TEXT);
    NameIsAt(c, i, TRUE_TEXT);
    NameIsAt(c, i, FALSE_TEXT);
  }

  /** Brackets and braces are only read when they are not too deep, and something comes behind them. */
  lemma OpensInside(c: bytes, i: nat, depth: nat)
    requires Terminated(c) && i < |c| && (c[i] == 91 || c[i] == 123) && JsonGrammar.ParseValue(c, i, depth).Some?
    ensures i + 1 < |c| && depth < 1000
  {
    hide At, Skip, JsonGrammar.ParseItems, JsonGrammar.ParseMembers;
    NamesApart(c, i);
  }

  lemma {:induction false} ReadIsTree(c: bytes, i: nat, depth: nat) returns (t: Tree)
    requires Terminated(c) && i < |c| && JsonGrammar.ParseValue(c, i, depth).Some?
    ensures IsTree(c, i, t, depth) && JsonGrammar.ParseValue(c, i, depth) == Some((ValueOf(t), t.to))
    decreases |c| - i, 1
  {
    hide Skip, IsLeaf, AreElements, AreFields, BlankBetween, JsonGrammar.ParseValue, JsonGrammar.ParseItems,
      JsonGrammar.ParseMembers;
    var (v, to) := JsonGrammar.ParseValue(c, i, depth).value;
    if c[i] == 91 {
      OpensInside(c, i, depth);
      AtBracket(c, i, depth);
      var k := Skip(c, i + 1);
      SkipIs(c, i + 1);
      if c[k] == 93 {
        t := Brackets(NoElement, k + 1);
      } else {
        var items := ReadElements(c, k, depth + 1);
        ElementsFromBlank(c, i + 1, k, items, to, depth + 1);
        t := Brackets(items, to);
      }
    } else if c[i] == 123 {
      OpensInside(c, i, depth);
      AtBrace(c, i, depth);
      var k := Skip(c, i + 1);
      SkipIs(c, i + 1);
      if c[k] == 125 {
        t := Braces(NoField, k + 1);
      } else {
        var members := ReadFields(c, k, depth + 1);
        FieldsFromBlank(c, i + 1, k, members, to, depth + 1);
        t := Braces(members, to);
      }
    } else {
      LeafRead(c, i, depth);
      t := Leaf(v, to);
    }
  }

  lemma ElementsFromBlank(c: bytes, i: nat, j: nat, items: Elements, to: nat, depth: nat)
    requires Terminated(c) && BlankBetween(c, i, j) && AreElements(c, j, items, to, depth)
    ensures AreElements(c, i, items, to, depth) && items.Element? && 0 < to <= |c| && c[to - 1] == 93
    decreases items
  {
    hide IsTree;
    if items.next.Element? {
      ElementsFromBlank(c, items.close + 1, items.close + 1, items.next, to, depth);
    }
  }

  lemma FieldsFromBlank(c: bytes, i: nat, j: nat, members: Fields, to: nat, depth: nat)
    requires Terminated(c) && BlankBetween(c, i, j) && AreFields(c, j, members, to, depth)
    ensures AreFields(c, i, members, to, depth) && members.Field? && 0 < to <= |c| && c[to - 1] == 125
    decreases members
  {
    hide IsTree, JsonGrammar.ParseString;
    if members.next.Field? {
      FieldsFromBlank(c, members.close + 1, members.close + 1, members.next, to, depth);
    }
  }

  lemma {:induction false} ReadElements(c: bytes, i: nat, depth: nat) returns (items: Elements)
    requires Terminated(c) && i < |c| && JsonGrammar.ParseItems(c, i, depth).Some?
    ensures items.Element?
    ensures var r := JsonGrammar.ParseItems(c, i, depth).value;
      AreElements(c, i, items, r.1, depth) && r.0 == ItemsOf(items)
    decreases |c| - i, 2
  {
    hide Skip, IsTree, BlankBetween, JsonGrammar.ParseValue, JsonGrammar.ParseItems;
    FirstElement(c, i, depth);
    var at := Skip(c, i);
    SkipIs(c, i);
    var tree := ReadIsTree(c, at, depth);
    var k := Skip(c, tree.to);
    SkipIs(c, tree.to);
    AtElement(c, i, depth, ValueOf(tree), tree.to, k);
    if c[k] == 44 {
      MoreElements(c, k, depth, ValueOf(tree));
      var next := ReadElements(c, k + 1, depth);
      items := Element(at, tree, k, next);
    } else {
      items := Element(at, tree, k, NoElement);
    }
  }

  lemma FirstElement(c: bytes, i: nat, depth: nat)
    requires Terminated(c) && i < |c| && JsonGrammar.ParseItems(c, i, depth).Some?
    ensures JsonGrammar.ParseValue(c, Skip(c, i), depth).Some?
  {
    hide Skip, JsonGrammar.ParseValue;
  }

  lemma MoreElements(c: bytes, k: nat, depth: nat, v: Value)
    requires Terminated(c) && k < |c| && c[k] == 44
    ensures k + 1 < |c|
    ensures WithItem(v, JsonGrammar.ParseItems(c, k + 1, depth)).Some? ==> JsonGrammar.ParseItems(c, k + 1, depth).Some?
  {
    hide JsonGrammar.ParseItems;
  }

  lemma {:induction false} ReadFields(c: bytes, i: nat, depth: nat) returns (members: Fields)
    requires Terminated(c) && i < |c| && JsonGrammar.ParseMembers(c, i, depth).Some?
    ensures members.Field?
    ensures var r := JsonGrammar.ParseMembers(c, i, depth).value;
      AreFields(c, i, members, r.1, depth) && r.0 == MembersOf(members)
    decreases |c| - i, 2
  {
    hide Skip, IsTree, BlankBetween, JsonGrammar.ParseValue, JsonGrammar.ParseMembers, JsonGrammar.ParseString;
    FirstField(c, i, depth);
    var keyAt := Skip(c, i);
    SkipIs(c, i);
    var (key, keyTo) := JsonGrammar.ParseString(c, keyAt).value;
    var colon := Skip(c, keyTo);
    SkipIs(c, keyTo);
    var at := Skip(c, colon + 1);
    SkipIs(c, colon + 1);
    var tree := ReadIsTree(c, at, depth);
    var k := Skip(c, tree.to);
    SkipIs(c, tree.to);
    AtMember(c, i, depth, key, keyTo, colon, ValueOf(tree), tree.to, k);
    if c[k] == 44 {
      MoreFields(c, k, depth, key, ValueOf(tree));
      var next := ReadFields(c, k + 1, depth);
      members := Field(keyAt, key, keyTo, colon, at, tree, k, next);
    } else {
      members := Field(keyAt, key, keyTo, colon, at, tree, k, NoField);
    }
  }

  lemma FirstField(c: bytes, i: nat, depth: nat)
    requires Terminated(c) && i < |c| && JsonGrammar.ParseMembers(c, i, depth).Some?
    ensures JsonGrammar.ParseString(c, Skip(c, i)).Some?
    ensures var colon := Skip(c, JsonGrammar.ParseString(c, Skip(c, i)).value.1);
      c[colon] == 58 && colon + 1 < |c| && JsonGrammar.ParseValue(c, Skip(c, colon + 1), depth).Some?
  {
    hide Skip, JsonGrammar.ParseValue, JsonGrammar.ParseString;
    assert MemberAt(c, i, depth).Some?;
  }

  lemma MoreFields(c: bytes, k: nat, depth: nat, key: bytes, v: Value)
    requires Terminated(c) && k < |c| && c[k] == 44
    ensures k + 1 < |c|
    ensures WithMember(key, v, JsonGrammar.ParseMembers(c, k + 1, depth)).Some? ==>
      JsonGrammar.ParseMembers(c, k + 1, depth).Some?
  {
    hide JsonGrammar.ParseMembers;
  }

  /** The parser reads a value up to `e` exactly when the text has such a tree there. */
  lemma ParseExactly(c: bytes, i: nat, depth: nat, v: Value, e: nat)
    requires Terminated(c) && i < |c|
    ensures JsonGrammar.ParseValue(c, i, depth) == Some((v, e))
       <==> exists t :: IsTree(c, i, t, depth) && ValueOf(t) == v && t.to == e
  {
    hide IsTree, ValueOf, JsonGrammar.ParseValue;
    if t :| IsTree(c, i, t, depth) && ValueOf(t) == v && t.to == e {
      TreeIsRead(c, i, t, depth);
    }
    if JsonGrammar.ParseValue(c, i, depth) == Some((v, e)) {
      var t := ReadIsTree(c, i, depth);
    }
  }

  /** Where a text begins: behind the three bytes of the UTF-8 byte order mark, if it begins with them and more. */
  function Begin(c: bytes): nat { if |c| > 4 && c[0] == 0xEF && c[1] == 0xBB && c[2] == 0xBF then 3 else 0 }

  /** A whole text is parsed exactly when it has a tree behind white space; when the end is asked for, only white space
      may follow it. */
  lemma TextExactly(c: bytes, requireEnd: bool, v: Value, e: nat)
    requires Terminated(c)
    ensures JsonGrammar.Parse(c, requireEnd) == Some((v, e))
       <==> exists i, t ::
         BlankBetween(c, Begin(c), i) && IsTree(c, i, t, 0) && ValueOf(t) == v &&
         if requireEnd then BlankBetween(c, t.to, e) && e == |c| - 1 else t.to == e
  {
    hide IsTree, ValueOf, JsonGrammar.ParseValue, Skip, At, BlankBetween;
    BeginIsStart(c);
    var start := Skip(c, Begin(c));
    SkipIs(c, Begin(c));
    if i, t :| BlankBetween(c, Begin(c), i) && IsTree(c, i, t, 0) && ValueOf(t) == v &&
               if requireEnd then BlankBetween(c, t.to, e) && e == |c| - 1 else t.to == e {
      NoBlankFirst(c, i, t, 0);
      SkipTo(c, Begin(c), i);
      TreeIsRead(c, i, t, 0);
      if requireEnd {
        SkipOver(c, t.to, e);
      }
    }
    if JsonGrammar.Parse(c, requireEnd) == Some((v, e)) {
      var t := ReadIsTree(c, start, 0);
      SkipIs(c, t.to);
      if requireEnd {
        OnlyEnd(c, t.to);
      }
      assert BlankBetween(c, Begin(c), start) && IsTree(c, start, t, 0) && ValueOf(t) == v;
    }
  }

  lemma BeginIsStart(c: bytes)
    requires Terminated(c)
    ensures Begin(c) < |c| && Start(c) == Skip(c, Begin(c))
  {
    hide Skip;
    AtIsSlice(c, 0, BYTE_ORDER_MARK);
    assert |c| > 4 ==> c[0..3] == [c[0], c[1], c[2]];
  }

  /** White space is skipped up to the terminator only at the end of the text. */
  lemma {:induction false} OnlyEnd(c: bytes, i: nat)
    requires i < |c| && c[Skip(c, i)] == NUL
    ensures Skip(c, i) == |c| - 1
    decreases |c| - i
  {
    if i < |c| - 1 && c[i] <= 32 {
      OnlyEnd(c, i + 1);
    }
  }
}
