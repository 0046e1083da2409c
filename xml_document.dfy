/** The tree builder of `xml_document.py`. Elements are objects that point to
    their parent and hold their children in groups of equal names; the model
    keeps them in one list and writes a reference to an element as its
    position in that list, so "the children of element 3" is the field of
    `elements[3]`, updated in place as the source updates the object. The
    tokens are taken as given, and so are the `key="value"` pieces the
    attribute pattern finds in a tag. */
module XmlDocument {
  import opened Common

  datatype Attribute = Attribute(key: string, value: string)

  /** An element: its name, the position of its parent, its attributes, its
      text content, and its children grouped by name. */
  datatype Element = Element(name: string, parent: nat, attributes: seq<Attribute>, content: string, children: seq<seq<nat>>)

  /** The document: all elements (the root first) and the parsing stack. */
  datatype State = State(elements: seq<Element>, stack: seq<nat>)

  /** `token[0]` or `token[1]` past the token's end, or `self.stack[-1]` on an
      empty stack, raise IndexError. */
  datatype ParseError = IndexError

  /** What the attribute pattern finds in the text after a tag's name. */
  type Matcher = string -> seq<string>

  /** The root is called "root" and is its own parent; the stack starts empty. */
  const Start := State([Element("root", 0, [], "", [])], [])

  // ---------------------------------------------------------------------
  // get_attr

  /** The first position of `x` in `s`, or `|s|` when there is none. */
  function FirstIndex(s: string, x: char): (k: nat)
    ensures k <= |s| && (k < |s| ==> s[k] == x)
    ensures forall j :: 0 <= j < k ==> s[j] != x
    decreases |s|
  {
    if s == [] || s[0] == x then 0 else 1 + FirstIndex(s[1..], x)
  }

  /** `s.partition(sep)`: split at the first separator, or all of `s` and
      two empty strings when there is none. */
  function Partition(s: string, sep: char): (r: (string, string, string))
    ensures sep !in r.0
    ensures sep in s ==> r.1 == [sep] && r.0 + r.1 + r.2 == s
    ensures sep !in s ==> r == (s, "", "")
  {
    var k := FirstIndex(s, sep);
    if k < |s| then
      assert s[..k] + [sep] + s[k + 1..] == s;
      (s[..k], [sep], s[k + 1..])
    else (s, "", "")
  }

  /** The text between the brackets of a tag: `<` dropped, and `/>` or `>`. */
  function TagText(token: string): string
    requires |token| >= 2
  {
    if token[|token| - 2] == '/' then Slice(token, 1, -2) else Slice(token, 1, -1)
  }

  /** One `key="value"` piece: the key before the first `=`, the value with
      its first and last characters (the quotes) dropped. */
  function ToAttribute(piece: string): Attribute {
    var (key, _, value) := Partition(piece, '=');
    Attribute(key, Slice(value, 1, -1))
  }

  function ToAttributes(pieces: seq<string>): (r: seq<Attribute>)
    ensures |r| == |pieces| && forall i :: 0 <= i < |pieces| ==> r[i] == ToAttribute(pieces[i])
  {
    seq(|pieces|, i requires 0 <= i < |pieces| => ToAttribute(pieces[i]))
  }

  /** `get_attr`: the name runs up to the first space; the attributes come
      from the pieces found in the rest, one attribute per piece. */
  function GetAttr(token: string, found: Matcher): (r: (string, seq<Attribute>))
    requires |token| >= 2
    ensures ' ' !in r.0
    ensures var text := TagText(token);
      |r.0| <= |text| && r.0 == text[..|r.0|] && (|r.0| < |text| ==> text[|r.0|] == ' ')
    ensures r.1 == ToAttributes(found(TagText(token)[|r.0|..]))
  {
    var text := TagText(token);
    var k := FirstIndex(text, ' ');
    (text[..k], ToAttributes(found(text[k..])))
  }

  /** The loops of `get_attr`: the scan for the first space and the
      conversion of the pieces. */
  method ReadAttributes(token: string, found: Matcher) returns (name: string, attributes: seq<Attribute>)
    requires |token| >= 2
    ensures (name, attributes) == GetAttr(token, found)
  {
    var text := if token[|token| - 2] == '/' then Slice(token, 1, -2) else Slice(token, 1, -1);
    var first := |text|;
    for i := 0 to |text|
      invariant forall j :: 0 <= j < i ==> text[j] != ' '
    {
      if text[i] == ' ' {
        first := i;
        break;
      }
    }
    assert first == FirstIndex(text, ' ');
    name := text[..first];
    var pieces := found(text[first..]);
    attributes := [];
    for i := 0 to |pieces|
      invariant attributes == ToAttributes(pieces[..i])
    {
      attributes := attributes + [ToAttribute(pieces[i])];
    }
    assert pieces[..|pieces|] == pieces;
  }

  /** A tag written as `<name>`, `<name/>`, or with a space and more text
      after the name, is read back with that name. */
  lemma TagName(name: string, rest: string, selfClosing: bool, found: Matcher)
    requires ' ' !in name
    requires rest == "" || rest[0] == ' '
    requires !selfClosing ==> name + rest == "" || (name + rest)[|name + rest| - 1] != '/'
    ensures var token := "<" + name + rest + (if selfClosing then "/>" else ">");
      GetAttr(token, found).0 == name
  {
    var token := "<" + name + rest + (if selfClosing then "/>" else ">");
    var inner := name + rest;
    assert TagText(token) == inner by {
      if selfClosing {
        assert token[|token| - 2] == '/';
        assert Slice(token, 1, -2) == token[1..|token| - 2];
        assert token[1..|token| - 2] == inner;
      } else {
        if inner != "" {
          assert token[|token| - 2] == inner[|inner| - 1];
        }
        assert Slice(token, 1, -1) == token[1..|token| - 1];
        assert token[1..|token| - 1] == inner;
      }
    }
    var k := FirstIndex(inner, ' ');
    assert k == |name| by {
      assert forall j :: 0 <= j < |name| ==> inner[j] == name[j];
      if rest != "" {
        assert inner[|name|] == ' ';
      }
    }
    assert inner[..k] == name;
  }

  /** A piece written as `key="value"`, with no `=` in the key, gives that
      key and that value. */
  lemma AttributePiece(key: string, value: string)
    requires '=' !in key
    ensures ToAttribute(key + "=\"" + value + "\"") == Attribute(key, value)
  {
    var piece := key + "=\"" + value + "\"";
    assert piece[|key|] == '=';
    assert FirstIndex(piece, '=') == |key| by {
      assert forall j :: 0 <= j < |key| ==> piece[j] == key[j];
    }
    var (k, _, v) := Partition(piece, '=');
    assert k == key && v == "\"" + value + "\"";
    assert Slice(v, 1, -1) == v[1..|v| - 1] == value;
  }

  // ---------------------------------------------------------------------
  // The shape of the document

  /** The tokens the loop can read without indexing past their end. */
  predicate Readable(t: string) {
    |t| > 0 && (t[0] == '<' ==> |t| >= 2)
  }

  datatype Kind = Open | SelfClosing | Close | Text

  /** A tag is opening when its second character is not `/` or its
      next-to-last is, and self-closing when its next-to-last is `/`; any
      other tag closes, and a token not starting with `<` is text. */
  function KindOf(t: string): (r: Kind)
    requires Readable(t)
    ensures r == Text <==> t[0] != '<'
    ensures r == SelfClosing <==> t[0] == '<' && t[|t| - 2] == '/'
    ensures r == Close <==> t[0] == '<' && t[1] == '/' && t[|t| - 2] != '/'
  {
    if t[0] == '<' && (t[1] != '/' || t[|t| - 2] == '/') then
      (if t[|t| - 2] != '/' then Open else SelfClosing)
    else if t[0] == '<' then Close
    else Text
  }

  /** Every position stored anywhere names an element, and no group of
      children is empty. */
  predicate WellFormed(s: State) {
    (forall i :: 0 <= i < |s.stack| ==> s.stack[i] < |s.elements|)
    && forall id :: 0 <= id < |s.elements| ==> Linked(s.elements, s.elements[id].children)
  }

  predicate Linked(els: seq<Element>, groups: seq<seq<nat>>) {
    forall g :: 0 <= g < |groups| ==> groups[g] != [] && forall c :: 0 <= c < |groups[g]| ==> groups[g][c] < |els|
  }

  /** The first group whose first element is called `name`, or the number
      of groups when there is none. */
  function GroupIndex(els: seq<Element>, groups: seq<seq<nat>>, name: string): (g: nat)
    requires Linked(els, groups)
    ensures g <= |groups|
    ensures g < |groups| ==> els[groups[g][0]].name == name
    ensures forall h :: 0 <= h < g ==> els[groups[h][0]].name != name
    decreases |groups|
  {
    if groups == [] then 0
    else if els[groups[0][0]].name == name then 0
    else
      assert Linked(els, groups[1..]) by {
        forall g | 0 <= g < |groups[1..]| ensures groups[1..][g] == groups[g + 1] { }
      }
      1 + GroupIndex(els, groups[1..], name)
  }

  /** `check_siblings_and_add_child`: the element joins the group of its
      name, or opens a group `[id]` of its own at the end exactly when no
      group has its name. */
  function Grouped(els: seq<Element>, groups: seq<seq<nat>>, name: string, id: nat): (r: seq<seq<nat>>)
    requires Linked(els, groups)
    ensures |r| == |groups| <==> exists g :: 0 <= g < |groups| && els[groups[g][0]].name == name
    ensures |r| == |groups| || (|r| == |groups| + 1 && r[|groups|] == [id])
  {
    var g := GroupIndex(els, groups, name);
    if g < |groups| then groups[g := groups[g] + [id]] else groups + [[id]]
  }

  /** The first group called `name` is the one joined, and no other group
      changes. */
  lemma GroupedJoinsFirst(els: seq<Element>, groups: seq<seq<nat>>, name: string, id: nat)
    requires Linked(els, groups)
    ensures var r := Grouped(els, groups, name, id);
      forall h :: 0 <= h < |groups| ==>
        r[h] == groups[h]
        || (r[h] == groups[h] + [id] && els[groups[h][0]].name == name
            && forall h' :: 0 <= h' < h ==> els[groups[h'][0]].name != name)
  {
  }

  /** The top's content rewritten: a closing tag strips it and pops the top,
      a text token appends to it. Nothing else changes. */
  function Rewritten(s: State, content: string, pop: bool): (r: State)
    requires WellFormed(s) && s.stack != []
    ensures WellFormed(r)
  {
    var top := s.stack[|s.stack| - 1];
    var els := s.elements[top := s.elements[top].(content := content)];
    assert forall id :: 0 <= id < |els| ==> els[id].children == s.elements[id].children;
    State(els, if pop then s.stack[..|s.stack| - 1] else s.stack)
  }

  /** An opening tag: a new element at the end of the list, whose parent is
      the stack's top, grouped among the top's children and pushed unless
      it closes itself. */
  function Opened(s: State, token: string, found: Matcher, push: bool): (r: State)
    requires WellFormed(s) && s.stack != [] && |token| >= 2
    ensures WellFormed(r)
  {
    var (name, attributes) := GetAttr(token, found);
    var top := s.stack[|s.stack| - 1];
    var n := |s.elements|;
    var els' := Adopted(s.elements, top, name, attributes);
    OpenedFormed(s, els', n, push);
    State(els', if push then s.stack + [n] else s.stack)
  }

  /** The element list with a new last element, a child of `top`, grouped
      among `top`'s children. */
  function Adopted(els0: seq<Element>, top: nat, name: string, attributes: seq<Attribute>): (r: seq<Element>)
    requires top < |els0| && Linked(els0, els0[top].children)
    ensures |r| == |els0| + 1 && Agrees(els0, r)
    ensures r[|els0|] == Element(name, top, attributes, "", [])
    ensures forall id :: 0 <= id < |els0| && id != top ==> r[id] == els0[id]
    ensures Linked(r, r[top].children)
  {
    var n := |els0|;
    var e := els0[top];
    var els := els0 + [Element(name, top, attributes, "", [])];
    LinkedGrow(els0, els, e.children);
    GroupedLinked(els, e.children, name, n);
    els[top := e.(children := Grouped(els, e.children, name, n))]
  }

  lemma LinkedGrow(els: seq<Element>, more: seq<Element>, groups: seq<seq<nat>>)
    requires Linked(els, groups) && |els| <= |more|
    ensures Linked(more, groups)
  {
  }

  lemma GroupedLinked(els: seq<Element>, groups: seq<seq<nat>>, name: string, id: nat)
    requires Linked(els, groups) && id < |els|
    ensures Linked(els, Grouped(els, groups, name, id))
  {
  }

  lemma OpenedFormed(s: State, els': seq<Element>, n: nat, push: bool)
    requires WellFormed(s) && s.stack != [] && n == |s.elements|
    requires var top := s.stack[|s.stack| - 1];
      |els'| == n + 1 && els'[n].children == [] && Linked(els', els'[top].children)
      && forall id :: 0 <= id < n && id != top ==> els'[id] == s.elements[id]
    ensures WellFormed(State(els', if push then s.stack + [n] else s.stack))
  {
    var top := s.stack[|s.stack| - 1];
    forall id | 0 <= id < |els'|
      ensures Linked(els', els'[id].children)
    {
      if id < n && id != top {
        LinkedGrow(s.elements, els', s.elements[id].children);
      }
    }
  }

  /** One token read by `parse`. */
  function Step(s: State, token: string, found: Matcher): (r: Result<State, ParseError>)
    requires WellFormed(s)
    ensures r.Ok? ==> WellFormed(r.value)
  {
    if !Readable(token) || s.stack == [] then Err(IndexError)
    else
      var e := s.elements[s.stack[|s.stack| - 1]];
      match KindOf(token)
      case Close => Ok(Rewritten(s, RStrip(e.content), true))
      case Text => Ok(Rewritten(s, e.content + token + " ", false))
      case _ => Ok(Opened(s, token, found, KindOf(token) == Open))
  }

  /** The tokens read one after another, until one of them fails. */
  function ParseFrom(s: State, tokens: seq<string>, found: Matcher): (r: Result<State, ParseError>)
    requires WellFormed(s)
    ensures r.Ok? ==> WellFormed(r.value)
    decreases |tokens|
  {
    if tokens == [] then Ok(s)
    else
      match Step(s, tokens[0], found)
      case Ok(next) => ParseFrom(next, tokens[1..], found)
      case Err(e) => Err(e)
  }

  /** `parse`: the root goes on the stack, then the tokens are read. */
  function Parsed(s: State, tokens: seq<string>, found: Matcher): (r: Result<State, ParseError>)
    requires WellFormed(s) && |s.elements| > 0
    ensures tokens == [] ==> r == Ok(s.(stack := s.stack + [0]))
    ensures r.Ok? ==> WellFormed(r.value)
  {
    ParseFrom(s.(stack := s.stack + [0]), tokens, found)
  }

  // ---------------------------------------------------------------------
  // The tree the parse keeps

  /** The groups of `owner`'s children: every child comes after its owner
      and names it as its parent, a group holds one name, and no two groups
      hold the same name. */
  predicate Grouping(els: seq<Element>, groups: seq<seq<nat>>, owner: nat) {
    Linked(els, groups)
    && (forall g, c :: 0 <= g < |groups| && 0 <= c < |groups[g]| ==>
          owner < groups[g][c] && els[groups[g][c]].parent == owner
          && els[groups[g][c]].name == els[groups[g][0]].name)
    && (forall g, h :: 0 <= g < h < |groups| ==> els[groups[g][0]].name != els[groups[h][0]].name)
  }

  /** The stack runs from the root down a line of parents. */
  predicate Chain(s: State)
    requires WellFormed(s)
  {
    (s.stack != [] ==> s.stack[0] == 0)
    && forall i :: 0 < i < |s.stack| ==> s.elements[s.stack[i]].parent == s.stack[i - 1]
  }

  /** The document is a tree under the root "root", its own parent; every
      other element's parent comes before it; children are grouped by name;
      the stack is a line of parents from the root. */
  predicate Valid(s: State) {
    WellFormed(s) && |s.elements| > 0
    && s.elements[0].name == "root" && s.elements[0].parent == 0
    && (forall id :: 0 < id < |s.elements| ==> s.elements[id].parent < id)
    && (forall id :: 0 <= id < |s.elements| ==> Grouping(s.elements, s.elements[id].children, id))
    && Chain(s)
  }

  /** `more` keeps the names and parents of the elements of `els`. */
  predicate Agrees(els: seq<Element>, more: seq<Element>) {
    |els| <= |more| && forall i :: 0 <= i < |els| ==> more[i].name == els[i].name && more[i].parent == els[i].parent
  }

  lemma GroupingAgree(els: seq<Element>, more: seq<Element>, groups: seq<seq<nat>>, owner: nat)
    requires Grouping(els, groups, owner) && Agrees(els, more)
    ensures Grouping(more, groups, owner)
  {
  }

  /** The new child joins its group without breaking the grouping. */
  lemma GroupedGrouping(els: seq<Element>, groups: seq<seq<nat>>, owner: nat, id: nat)
    requires Grouping(els, groups, owner)
    requires owner < id < |els| && els[id].parent == owner
    ensures Grouping(els, Grouped(els, groups, els[id].name, id), owner)
  {
    var name := els[id].name;
    var g := GroupIndex(els, groups, name);
    var r := Grouped(els, groups, name, id);
    if g < |groups| {
      forall k, c | 0 <= k < |r| && 0 <= c < |r[k]|
        ensures owner < r[k][c] && els[r[k][c]].parent == owner && els[r[k][c]].name == els[r[k][0]].name
      {
        if k == g && c == |groups[g]| {
          assert r[k][c] == id && r[k][0] == groups[g][0];
        } else if k == g {
          assert r[k][c] == groups[g][c] && r[k][0] == groups[g][0];
        }
      }
      forall k, h | 0 <= k < h < |r|
        ensures els[r[k][0]].name != els[r[h][0]].name
      {
        assert r[k][0] == groups[k][0] && r[h][0] == groups[h][0];
      }
    } else {
      forall k, h | 0 <= k < h < |r|
        ensures els[r[k][0]].name != els[r[h][0]].name
      {
        if h == |groups| {
          assert r[h][0] == id && r[k] == groups[k];
        }
      }
    }
  }

  /** A closing tag or a text token keeps the tree. */
  lemma RewrittenValid(s: State, content: string, pop: bool)
    requires Valid(s) && s.stack != []
    ensures Valid(Rewritten(s, content, pop))
  {
    var r := Rewritten(s, content, pop);
    assert Agrees(s.elements, r.elements);
    forall id | 0 <= id < |r.elements|
      ensures Grouping(r.elements, r.elements[id].children, id)
    {
      GroupingAgree(s.elements, r.elements, s.elements[id].children, id);
    }
  }

  /** An opening tag keeps the tree. */
  lemma OpenedValid(s: State, token: string, found: Matcher, push: bool)
    requires Valid(s) && s.stack != [] && |token| >= 2
    ensures Valid(Opened(s, token, found, push))
  {
    var (name, attributes) := GetAttr(token, found);
    var top := s.stack[|s.stack| - 1];
    var n := |s.elements|;
    var r := Opened(s, token, found, push);
    assert r.elements == Adopted(s.elements, top, name, attributes);
    assert r.stack == if push then s.stack + [n] else s.stack;
    OpenedGroups(s.elements, name, attributes, top);
    OpenedChain(s, r, push);
    assert forall id :: 0 < id < |r.elements| ==> r.elements[id].parent < id by {
      forall id | 0 < id < |r.elements|
        ensures r.elements[id].parent < id
      {
        if id < n {
          assert r.elements[id].parent == s.elements[id].parent;
        }
      }
    }
  }

  /** A new element under the top of the stack, pushed or not, keeps the
      stack a line of parents. */
  lemma OpenedChain(s: State, r: State, push: bool)
    requires Valid(s) && s.stack != [] && WellFormed(r) && Agrees(s.elements, r.elements)
    requires |r.elements| == |s.elements| + 1
    requires r.elements[|s.elements|].parent == s.stack[|s.stack| - 1]
    requires r.stack == if push then s.stack + [|s.elements|] else s.stack
    ensures Chain(r)
  {
    forall i | 0 < i < |r.stack|
      ensures r.elements[r.stack[i]].parent == r.stack[i - 1]
    {
      if i < |s.stack| {
        assert r.stack[i] == s.stack[i] && r.stack[i - 1] == s.stack[i - 1];
      }
    }
  }

  /** The grouping of every element survives a new child of `top`. */
  lemma OpenedGroups(els0: seq<Element>, name: string, attributes: seq<Attribute>, top: nat)
    requires top < |els0| && Linked(els0, els0[top].children)
    requires forall id :: 0 <= id < |els0| ==> Grouping(els0, els0[id].children, id)
    ensures var more := Adopted(els0, top, name, attributes);
      forall id :: 0 <= id < |more| ==> Grouping(more, more[id].children, id)
  {
    var n := |els0|;
    var els := els0 + [Element(name, top, attributes, "", [])];
    assert Agrees(els0, els);
    var e := els0[top];
    GroupingAgree(els0, els, e.children, top);
    var more := Adopted(els0, top, name, attributes);
    assert more == els[top := e.(children := Grouped(els, e.children, name, n))];
    assert Agrees(els, more);
    forall id | 0 <= id < |more|
      ensures Grouping(more, more[id].children, id)
    {
      if id == top {
        GroupedGrouping(els, e.children, top, n);
        GroupingAgree(els, more, more[top].children, top);
      } else if id < n {
        GroupingAgree(els0, more, els0[id].children, id);
      }
    }
  }

  lemma StepValid(s: State, token: string, found: Matcher)
    requires Valid(s) && Step(s, token, found).Ok?
    ensures Valid(Step(s, token, found).value)
  {
    var e := s.elements[s.stack[|s.stack| - 1]];
    match KindOf(token)
    case Close => RewrittenValid(s, RStrip(e.content), true);
    case Text => RewrittenValid(s, e.content + token + " ", false);
    case _ => OpenedValid(s, token, found, KindOf(token) == Open);
  }

  /** Every parse keeps the tree. */
  lemma {:induction false} ParseValid(s: State, tokens: seq<string>, found: Matcher)
    requires Valid(s) && ParseFrom(s, tokens, found).Ok?
    ensures Valid(ParseFrom(s, tokens, found).value)
    decreases |tokens|
  {
    if tokens != [] {
      StepValid(s, tokens[0], found);
      ParseValid(Step(s, tokens[0], found).value, tokens[1..], found);
    }
  }

  /** An opening tag makes one new element at the end of the list: named
      and attributed by `get_attr`, with no content and no children, whose
      parent is the stack's top; it is found among the top's children in the
      group of its name, and it is pushed exactly when the tag does not close
      itself. */
  lemma OpenedElement(s: State, token: string, found: Matcher)
    requires Valid(s) && Readable(token) && s.stack != []
    requires KindOf(token) == Open || KindOf(token) == SelfClosing
    ensures var r := Step(s, token, found).value; var n := |s.elements|;
      var top := s.stack[|s.stack| - 1];
      |r.elements| == n + 1
      && r.elements[n] == Element(GetAttr(token, found).0, top, GetAttr(token, found).1, "", [])
      && (r.stack == if KindOf(token) == Open then s.stack + [n] else s.stack)
      && exists g, c :: 0 <= g < |r.elements[top].children| && 0 <= c < |r.elements[top].children[g]|
           && r.elements[top].children[g][c] == n
           && r.elements[r.elements[top].children[g][0]].name == r.elements[n].name
  {
    var push := KindOf(token) == Open;
    assert Step(s, token, found) == Ok(Opened(s, token, found, push));
    OpenedJoins(s, token, found, push);
  }

  /** The new element of `Opened`, and the group of the top's children it joins. */
  lemma OpenedJoins(s: State, token: string, found: Matcher, push: bool)
    requires Valid(s) && |token| >= 2 && s.stack != []
    ensures var r := Opened(s, token, found, push); var n := |s.elements|;
      var top := s.stack[|s.stack| - 1];
      |r.elements| == n + 1
      && r.elements[n] == Element(GetAttr(token, found).0, top, GetAttr(token, found).1, "", [])
      && (r.stack == if push then s.stack + [n] else s.stack)
      && exists g, c :: 0 <= g < |r.elements[top].children| && 0 <= c < |r.elements[top].children[g]|
           && r.elements[top].children[g][c] == n
           && r.elements[r.elements[top].children[g][0]].name == r.elements[n].name
  {
    var r := Opened(s, token, found, push);
    var n := |s.elements|;
    var top := s.stack[|s.stack| - 1];
    var name := GetAttr(token, found).0;
    var els := s.elements + [Element(name, top, GetAttr(token, found).1, "", [])];
    var groups := s.elements[top].children;
    assert Linked(els, groups);
    var g := GroupIndex(els, groups, name);
    var grouped := Grouped(els, groups, name, n);
    assert r.elements == Adopted(s.elements, top, name, GetAttr(token, found).1);
    assert r.elements[top].children == grouped;
    assert Agrees(els, r.elements);
    if g < |groups| {
      assert grouped[g][|groups[g]|] == n;
      assert grouped[g][0] == groups[g][0];
    } else {
      assert grouped[|groups|][0] == n;
    }
  }

  /** A closing tag pops the top whatever name it carries: two closing tags
      with different names do the same. */
  lemma CloseIgnoresName(s: State, a: string, b: string, found: Matcher)
    requires WellFormed(s)
    requires a != "" && a[|a| - 1] != '/' && b != "" && b[|b| - 1] != '/'
    ensures Step(s, "</" + a + ">", found) == Step(s, "</" + b + ">", found)
    ensures s.stack != [] ==>
      Step(s, "</" + a + ">", found).Ok? && Step(s, "</" + a + ">", found).value.stack == s.stack[..|s.stack| - 1]
  {
    var ta, tb := "</" + a + ">", "</" + b + ">";
    assert ta[0] == '<' && ta[1] == '/' && ta[|ta| - 2] == a[|a| - 1];
    assert tb[0] == '<' && tb[1] == '/' && tb[|tb| - 2] == b[|b| - 1];
  }

  // ---------------------------------------------------------------------
  // Stack heights

  /** The stack height after a token of kind `k` at height `h`. */
  function Next(h: nat, k: Kind): nat {
    match k
    case Open => h + 1
    case Close => if h > 0 then h - 1 else 0
    case _ => h
  }

  /** Every token is readable and meets a non-empty stack. */
  predicate Fits(h: nat, toks: seq<string>)
    decreases |toks|
  {
    toks == [] || (Readable(toks[0]) && h > 0 && Fits(Next(h, KindOf(toks[0])), toks[1..]))
  }

  /** The stack height after the tokens; unreadable tokens leave it. */
  function HeightFrom(h: nat, toks: seq<string>): nat
    decreases |toks|
  {
    if toks == [] then h
    else HeightFrom(if Readable(toks[0]) then Next(h, KindOf(toks[0])) else h, toks[1..])
  }

  lemma StepHeight(s: State, token: string, found: Matcher)
    requires WellFormed(s)
    ensures Step(s, token, found).Ok? <==> Readable(token) && s.stack != []
    ensures Step(s, token, found).Ok? ==> |Step(s, token, found).value.stack| == Next(|s.stack|, KindOf(token))
  {
  }

  /** The parse fails exactly when a token cannot be read or meets an empty
      stack, and otherwise ends at the height the kinds of the tokens give. */
  lemma {:induction false} ParseHeight(s: State, tokens: seq<string>, found: Matcher)
    requires WellFormed(s)
    ensures ParseFrom(s, tokens, found).Ok? <==> Fits(|s.stack|, tokens)
    ensures ParseFrom(s, tokens, found).Ok? ==> |ParseFrom(s, tokens, found).value.stack| == HeightFrom(|s.stack|, tokens)
    decreases |tokens|
  {
    if tokens != [] {
      StepHeight(s, tokens[0], found);
      if Step(s, tokens[0], found).Ok? {
        ParseHeight(Step(s, tokens[0], found).value, tokens[1..], found);
      }
    }
  }

  /** No closing tag closes the element a stretch starts in. */
  predicate Nested(h: nat, toks: seq<string>)
    decreases |toks|
  {
    toks == [] ||
      (Readable(toks[0]) && (KindOf(toks[0]) == Close ==> h >= 2) && Nested(Next(h, KindOf(toks[0])), toks[1..]))
  }

  lemma {:induction false} NestedFits(h: nat, toks: seq<string>)
    requires h >= 1 && Nested(h, toks)
    ensures Fits(h, toks) && HeightFrom(h, toks) >= 1
    decreases |toks|
  {
    if toks != [] {
      NestedFits(Next(h, KindOf(toks[0])), toks[1..]);
    }
  }

  /** Well-nested tokens (every closing tag has an opening tag before it,
      and every opening tag a closing tag) leave the stack holding only the
      root. */
  lemma WellNestedRoot(tokens: seq<string>, found: Matcher)
    requires Nested(1, tokens) && HeightFrom(1, tokens) == 1
    ensures Parsed(Start, tokens, found).Ok?
    ensures Parsed(Start, tokens, found).value.stack == [0]
  {
    var s := Start.(stack := [0]);
    assert Start.(stack := Start.stack + [0]) == s;
    assert Valid(s) by {
      assert Grouping(s.elements, s.elements[0].children, 0);
    }
    NestedFits(1, tokens);
    ParseHeight(s, tokens, found);
    ParseValid(s, tokens, found);
    assert Parsed(Start, tokens, found) == ParseFrom(s, tokens, found);
    var r := ParseFrom(s, tokens, found).value;
    assert |r.stack| == 1 && r.stack[0] == 0;
    assert r.stack == [r.stack[0]];
  }

  // ---------------------------------------------------------------------
  // str.rstrip

  /** The characters `str.isspace` accepts, which are also the ones `\s`
      matches in a `str` pattern: the ASCII controls 0x09-0x0D and
      0x1C-0x1F, the space, NEL, NO-BREAK SPACE, OGHAM SPACE MARK, the
      spaces 0x2000-0x200A, the line and paragraph separators, the narrow
      no-break space, the medium mathematical space and the ideographic
      space. */
  predicate IsSpace(c: char) {
    ('\t' <= c <= '\r') || ('\U{1C}' <= c <= ' ') || c == '\U{85}' || c == '\U{A0}'
    || c == '\U{1680}' || ('\U{2000}' <= c <= '\U{200A}') || c == '\U{2028}' || c == '\U{2029}'
    || c == '\U{202F}' || c == '\U{205F}' || c == '\U{3000}'
  }

  /** `s.rstrip()`: the longest prefix that does not end in white space, whose
      removed tail is all white space. */
  function RStrip(s: string): (r: string)
    ensures |r| <= |s| && r == s[..|r|]
    ensures r == "" || !IsSpace(r[|r| - 1])
    ensures forall k :: |r| <= k < |s| ==> IsSpace(s[k])
    decreases |s|
  {
    if s == [] || !IsSpace(s[|s| - 1]) then s else RStrip(s[..|s| - 1])
  }

  /** White space beyond ASCII is stripped too: a trailing ideographic space
      goes, as it does in Python. */
  lemma RStripWideSpace()
    ensures RStrip("a\U{3000}") == "a"
  {
    assert "a\U{3000}"[..1] == "a";
  }

  // ---------------------------------------------------------------------
  // The document as an object

  class Document {
    var elements: seq<Element>
    var stack: seq<nat>

    function Model(): State
      reads this
    {
      State(elements, stack)
    }

    /** `__init__` before it calls `parse`: the root, its own parent, and an
        empty stack. */
    constructor()
      ensures Model() == Start
    {
      elements := [Element("root", 0, [], "", [])];
      stack := [];
    }

    /** `parse`: the root pushed, then one step per token; on IndexError the
        steps before the one that failed have been made. */
    method Parse(tokens: seq<string>, found: Matcher) returns (r: Result<(), ParseError>)
      requires WellFormed(Model()) && |elements| > 0
      modifies this
      ensures r.Ok? <==> Parsed(old(Model()), tokens, found).Ok?
      ensures r.Ok? ==> Model() == Parsed(old(Model()), tokens, found).value
    {
      stack := stack + [0];
      ghost var start := Model();
      for i := 0 to |tokens|
        invariant WellFormed(Model())
        invariant ParseFrom(start, tokens, found) == ParseFrom(Model(), tokens[i..], found)
      {
        assert tokens[i..][0] == tokens[i] && tokens[i..][1..] == tokens[i + 1..];
        var ok := Advance(tokens[i], found);
        if !ok {
          return Err(IndexError);
        }
      }
      assert tokens[|tokens|..] == [];
      r := Ok(());
    }

    /** One pass of the loop of `parse`: the token read, or IndexError
        (a token too short to classify, or nothing on the stack) with
        nothing changed. */
    method Advance(token: string, found: Matcher) returns (ok: bool)
      requires WellFormed(Model())
      modifies this
      ensures ok <==> Step(old(Model()), token, found).Ok?
      ensures ok ==> Step(old(Model()), token, found) == Ok(Model())
      ensures !ok ==> Model() == old(Model())
    {
      if |token| == 0 || (token[0] == '<' && |token| < 2) || stack == [] {
        return false;
      }
      if token[0] == '<' && (token[1] != '/' || token[|token| - 2] == '/') {
        OpenElement(token, found);
      } else if token[0] == '<' && token[1] == '/' {
        CloseElement();
      } else {
        AddText(token);
      }
      ok := true;
    }

    /** An opening tag: a new element under the stack's top, added to the
        top's children, and pushed unless it closes itself. */
    method OpenElement(token: string, found: Matcher)
      requires WellFormed(Model()) && stack != [] && Readable(token)
      requires KindOf(token) == Open || KindOf(token) == SelfClosing
      modifies this
      ensures Step(old(Model()), token, found) == Ok(Model())
    {
      var name, attributes := ReadAttributes(token, found);
      var n := |elements|;
      var top := stack[|stack| - 1];
      elements := elements + [Element(name, top, attributes, "", [])];
      AddChild(n);
      if token[|token| - 2] != '/' {
        stack := stack + [n];
      }
    }

    /** `check_siblings_and_add_child`: the scan for a group of the same
        name, then the append. */
    method AddChild(id: nat)
      requires id < |elements| && stack != [] && stack[|stack| - 1] < |elements|
      requires Linked(elements, elements[stack[|stack| - 1]].children)
      modifies this
      ensures stack == old(stack)
      ensures var top := stack[|stack| - 1]; var e := old(elements)[top];
        elements == old(elements)[top := e.(children := Grouped(old(elements), e.children, old(elements)[id].name, id))]
    {
      var top := stack[|stack| - 1];
      var e := elements[top];
      var name := elements[id].name;
      var groups := e.children;
      var g := |groups|;
      for i := 0 to |groups|
        invariant forall h :: 0 <= h < i ==> elements[groups[h][0]].name != name
      {
        if elements[groups[i][0]].name == name {
          g := i;
          break;
        }
      }
      assert g == GroupIndex(elements, groups, name);
      if g < |groups| {
        groups := groups[g := groups[g] + [id]];
      } else {
        groups := groups + [[id]];
      }
      elements := elements[top := e.(children := groups)];
    }

    /** A closing tag: the top's content right-stripped, and the top popped
        whatever its name. */
    method CloseElement()
      requires stack != [] && stack[|stack| - 1] < |elements|
      modifies this
      ensures var top := old(stack)[|old(stack)| - 1];
        elements == old(elements)[top := old(elements)[top].(content := RStrip(old(elements)[top].content))]
      ensures stack == old(stack)[..|old(stack)| - 1]
    {
      var top := stack[|stack| - 1];
      elements := elements[top := elements[top].(content := RStrip(elements[top].content))];
      stack := stack[..|stack| - 1];
    }

    /** Text between tags: appended to the top's content with one space. */
    method AddText(token: string)
      requires stack != [] && stack[|stack| - 1] < |elements|
      modifies this
      ensures stack == old(stack)
      ensures var top := stack[|stack| - 1];
        elements == old(elements)[top := old(elements)[top].(content := old(elements)[top].content + token + " ")]
    {
      var top := stack[|stack| - 1];
      elements := elements[top := elements[top].(content := elements[top].content + token + " ")];
    }
  }
}
