/** The JSON writer of `xml2json.py`: a recursive walk over the element tree
    of the document that appends the pieces of the JSON text to a list,
    followed by one pass that deletes the commas left before a closing brace
    or bracket and at the end of the text. */
module Xml2Json {
  import opened Common
  import opened XmlDocument

  /** No group of children is empty and every child comes after its owner:
      the walk goes down the tree and ends. */
  predicate Ordered(els: seq<Element>) {
    forall id :: 0 <= id < |els| ==> Below(els, id, els[id].children)
  }

  predicate Below(els: seq<Element>, owner: nat, groups: seq<seq<nat>>) {
    forall g :: 0 <= g < |groups| ==> groups[g] != [] && forall c :: 0 <= c < |groups[g]| ==> owner < groups[g][c] < |els|
  }

  /** The tree `parse` keeps always allows the walk. */
  lemma ValidOrdered(s: State)
    requires Valid(s)
    ensures Ordered(s.elements)
  {
    forall id | 0 <= id < |s.elements|
      ensures Below(s.elements, id, s.elements[id].children)
    {
      assert Grouping(s.elements, s.elements[id].children, id);
    }
  }

  /** `f'"{content}",\n'`, the whole text of a leaf. */
  function Leaf(content: string): string {
    "\"" + content + "\",\n"
  }

  /** The `_text` line, present when there is content. */
  function TextLine(extra: string, content: string): seq<string> {
    if |content| != 0 then [extra + "\"_text\": \"" + content + "\",\n"] else []
  }

  /** One line `"#key": "value",` per attribute, in order. */
  function AttrLines(extra: string, attributes: seq<Attribute>): (r: seq<string>)
    ensures |r| == |attributes|
    ensures forall i :: 0 <= i < |attributes| ==>
      r[i] == extra + "\"#" + attributes[i].key + "\": \"" + attributes[i].value + "\",\n"
  {
    seq(|attributes|, i requires 0 <= i < |attributes| =>
      extra + "\"#" + attributes[i].key + "\": \"" + attributes[i].value + "\",\n")
  }

  /** The pieces `add_json_children(node, single, tabs)` appends: the
      indentation when the node is one of several siblings, then the leaf
      text, or the braced object with the text line, the attribute lines and
      the child groups, each one level deeper. `{\n` is added to the list
      character by character, as `+=` on a list does with a string. */
  function Json(els: seq<Element>, id: nat, single: bool, tabs: string, tab: int): (r: seq<string>)
    requires Ordered(els) && id < |els|
    ensures r != [] && (!single ==> r[0] == tabs)
    decreases |els| - id + 1, 0, 1
  {
    var node := els[id];
    (if single then [] else [tabs])
      + if |node.attributes| == 0 && |node.children| == 0 then [Leaf(node.content)] else Object(els, id, tabs, tab)
  }

  /** A node with attributes or children: its braced object, which opens
      with `{` and a line break and closes with `}` at the node's own
      indentation. */
  function Object(els: seq<Element>, id: nat, tabs: string, tab: int): (r: seq<string>)
    requires Ordered(els) && id < |els|
    ensures |r| >= 3 && r[0] == "{" && r[1] == "\n" && r[|r| - 1] == tabs + "},\n"
    decreases |els| - id + 1, 0, 0
  {
    var node := els[id];
    var extra := tabs + Spaces(tab);
    ["{", "\n"] + TextLine(extra, node.content) + AttrLines(extra, node.attributes)
      + Groups(els, id, node.children, extra, tab) + [tabs + "},\n"]
  }

  /** The child groups in order: a group of one is `"name": ` and the
      child's value; a larger group is a `[` ... `],` array of its members,
      each on a line of its own one level deeper still. */
  function Groups(els: seq<Element>, owner: nat, groups: seq<seq<nat>>, extra: string, tab: int): seq<string>
    requires Ordered(els) && Below(els, owner, groups)
    decreases |els| - owner, |groups| + 1, 0
  {
    if groups == [] then []
    else
      assert Below(els, owner, groups[1..]) by {
        forall g | 0 <= g < |groups[1..]| ensures groups[1..][g] == groups[g + 1] { }
      }
      Group(els, owner, groups[0], extra, tab) + Groups(els, owner, groups[1..], extra, tab)
  }

  /** The groups from the `i`-th on: that group, then the ones after it. */
  lemma GroupsFrom(els: seq<Element>, owner: nat, groups: seq<seq<nat>>, i: nat, extra: string, tab: int)
    requires Ordered(els) && Below(els, owner, groups) && i < |groups|
    ensures groups[i] != [] && forall c :: 0 <= c < |groups[i]| ==> owner < groups[i][c] < |els|
    ensures Below(els, owner, groups[i..]) && Below(els, owner, groups[i + 1..])
    ensures Groups(els, owner, groups[i..], extra, tab)
      == Group(els, owner, groups[i], extra, tab) + Groups(els, owner, groups[i + 1..], extra, tab)
  {
    assert groups[i..][0] == groups[i] && groups[i..][1..] == groups[i + 1..];
    forall j | i <= j <= |groups|
      ensures Below(els, owner, groups[j..])
    {
      forall g | 0 <= g < |groups[j..]|
        ensures groups[j..][g] != [] && forall c :: 0 <= c < |groups[j..][g]| ==> owner < groups[j..][g][c] < |els|
      {
        assert groups[j..][g] == groups[j + g];
      }
    }
  }

  function Group(els: seq<Element>, owner: nat, group: seq<nat>, extra: string, tab: int): seq<string>
    requires Ordered(els) && group != [] && forall c :: 0 <= c < |group| ==> owner < group[c] < |els|
    decreases |els| - owner, 1, 0
  {
    if |group| == 1 then
      [extra + "\"" + els[group[0]].name + "\": "] + Json(els, group[0], true, extra, tab)
    else
      [extra + "\"" + els[group[0]].name + "\": [\n"] + Members(els, owner, group, extra + Spaces(tab), tab) + [extra + "],\n"]
  }

  function Members(els: seq<Element>, owner: nat, group: seq<nat>, tabs: string, tab: int): seq<string>
    requires Ordered(els)
    requires forall c :: 0 <= c < |group| ==> owner < group[c] < |els|
    decreases |els| - owner, 0, |group| + 1
  {
    if group == [] then []
    else Json(els, group[0], false, tabs, tab) + Members(els, owner, group[1..], tabs, tab)
  }

  // ---------------------------------------------------------------------
  // The comma pass

  /** The first position at or after `j` that is not white space, or `|t|`. */
  function SpaceEnd(t: string, j: nat): (k: nat)
    requires j <= |t|
    ensures j <= k <= |t| && (k < |t| ==> !IsSpace(t[k]))
    ensures forall m :: j <= m < k ==> IsSpace(t[m])
    decreases |t| - j
  {
    if j == |t| || !IsSpace(t[j]) then j else SpaceEnd(t, j + 1)
  }

  /** A comma the pass deletes: white space follows it, and after the white
      space comes `}`, `]` or the end of the text. */
  predicate Trailing(t: string, i: nat)
    requires i < |t|
  {
    t[i] == ',' && var k := SpaceEnd(t, i + 1); k > i + 1 && (k == |t| || t[k] == '}' || t[k] == ']')
  }

  /** The text from position `i` on with the trailing commas deleted. */
  function DropFrom(t: string, i: nat): string
    requires i <= |t|
    decreases |t| - i
  {
    if i == |t| then "" else (if Trailing(t, i) then "" else [t[i]]) + DropFrom(t, i + 1)
  }

  /** The comma pass over the whole text: it deletes commas and nothing
      else, and a text without trailing commas goes through unchanged. */
  function DropCommas(t: string): (r: string)
    ensures Without(r, {','}) == Without(t, {','})
    ensures (forall j :: 0 <= j < |t| ==> !Trailing(t, j)) ==> r == t
  {
    assert t[0..] == t;
    DropOnlyCommas(t, 0);
    assert (forall j :: 0 <= j < |t| ==> !Trailing(t, j)) ==> DropFrom(t, 0) == t by {
      if forall j :: 0 <= j < |t| ==> !Trailing(t, j) {
        DropNone(t, 0);
      }
    }
    DropFrom(t, 0)
  }

  /** A comma before an ideographic space and `}` is trailing, as `\s`
      matches that space in Python. */
  lemma WideSpaceComma()
    ensures DropCommas(",\U{3000}}") == "\U{3000}}"
  {
    var t := ",\U{3000}}";
    assert SpaceEnd(t, 1) == 2 by { assert SpaceEnd(t, 2) == 2; }
    assert Trailing(t, 0);
    assert DropFrom(t, 3) == "";
    assert !Trailing(t, 2);
    assert !Trailing(t, 1);
  }

  /** The number of trailing commas from position `i` on. */
  function TrailingCount(t: string, i: nat): nat
    requires i <= |t|
    decreases |t| - i
  {
    if i == |t| then 0 else (if Trailing(t, i) then 1 else 0) + TrailingCount(t, i + 1)
  }

  /** The pass deletes commas and nothing else: with the commas taken out,
      the text is as it was. */
  lemma {:induction false} DropOnlyCommas(t: string, i: nat)
    requires i <= |t|
    ensures Without(DropFrom(t, i), {','}) == Without(t[i..], {','})
    decreases |t| - i
  {
    if i < |t| {
      assert t[i..] == [t[i]] + t[i + 1..];
      DropOnlyCommas(t, i + 1);
      DropStep(t, i);
      WithoutConcat([t[i]], t[i + 1..], {','});
    } else {
      assert t[i..] == [];
    }
  }

  /** One position of the pass: a deleted comma and a kept character look
      the same once the commas are taken out. */
  lemma DropStep(t: string, i: nat)
    requires i < |t|
    ensures Without(DropFrom(t, i), {','}) == Without([t[i]], {','}) + Without(DropFrom(t, i + 1), {','})
  {
    var here := if Trailing(t, i) then "" else [t[i]];
    assert DropFrom(t, i) == here + DropFrom(t, i + 1);
    WithoutConcat(here, DropFrom(t, i + 1), {','});
    WithoutOneChar(t[i], {','});
  }

  /** The pass makes the text shorter by exactly the number of trailing
      commas. */
  lemma {:induction false} DropCount(t: string, i: nat)
    requires i <= |t|
    ensures |DropFrom(t, i)| == |t| - i - TrailingCount(t, i)
    decreases |t| - i
  {
    if i < |t| {
      DropCount(t, i + 1);
    }
  }

  /** A text without trailing commas goes through unchanged. */
  lemma {:induction false} DropNone(t: string, i: nat)
    requires i <= |t|
    requires forall j :: i <= j < |t| ==> !Trailing(t, j)
    ensures DropFrom(t, i) == t[i..]
    decreases |t| - i
  {
    if i < |t| {
      DropNone(t, i + 1);
      assert t[i..] == [t[i]] + t[i + 1..];
    }
  }

  /** What the writer produces for a whole document: the pieces for the
      root, joined, with the trailing commas deleted. */
  function Converted(els: seq<Element>, tab: int): string
    requires Ordered(els) && |els| > 0
  {
    DropCommas(Flatten(Json(els, 0, true, "", tab)))
  }

  // ---------------------------------------------------------------------
  // Braces and brackets balance

  /** No braces or brackets in a string. */
  predicate Plain(s: string) {
    '{' !in s && '}' !in s && '[' !in s && ']' !in s
  }

  /** Every name, text and attribute of the tree is plain. */
  predicate PlainTree(els: seq<Element>) {
    forall id :: 0 <= id < |els| ==>
      Plain(els[id].name) && Plain(els[id].content)
      && forall a :: 0 <= a < |els[id].attributes| ==> Plain(els[id].attributes[a].key) && Plain(els[id].attributes[a].value)
  }

  /** How many times `x` occurs in the joined pieces. */
  function Count(parts: seq<string>, x: char): nat
  {
    if parts == [] then 0 else Count(parts[..|parts| - 1], x) + multiset(parts[|parts| - 1])[x]
  }

  /** As many `{` as `}` and as many `[` as `]`; `braces` and `brackets` say
      how many more opening than closing ones there are. */
  predicate Net(parts: seq<string>, braces: int, brackets: int) {
    Count(parts, '{') - Count(parts, '}') == braces && Count(parts, '[') - Count(parts, ']') == brackets
  }

  predicate Even(parts: seq<string>) {
    Net(parts, 0, 0)
  }

  lemma {:induction false} CountFlatten(parts: seq<string>, x: char)
    ensures Count(parts, x) == multiset(Flatten(parts))[x]
    decreases |parts|
  {
    if parts != [] {
      CountFlatten(parts[..|parts| - 1], x);
    }
  }

  lemma {:induction false} CountConcat(a: seq<string>, b: seq<string>, x: char)
    ensures Count(a + b, x) == Count(a, x) + Count(b, x)
    decreases |b|
  {
    if b == [] {
      assert a + b == a;
    } else {
      CountConcat(a, b[..|b| - 1], x);
      assert (a + b)[..|a + b| - 1] == a + b[..|b| - 1];
    }
  }

  lemma NetConcat(a: seq<string>, b: seq<string>, braces: int, brackets: int, braces': int, brackets': int)
    requires Net(a, braces, brackets) && Net(b, braces', brackets')
    ensures Net(a + b, braces + braces', brackets + brackets')
  {
    CountConcat(a, b, '{');
    CountConcat(a, b, '}');
    CountConcat(a, b, '[');
    CountConcat(a, b, ']');
  }

  /** A one-piece list counts as its piece. */
  lemma NetOne(s: string, braces: int, brackets: int)
    requires multiset(s)['{'] as int - multiset(s)['}'] as int == braces
    requires multiset(s)['['] as int - multiset(s)[']'] as int == brackets
    ensures Net([s], braces, brackets)
  {
    assert [s][..0] == [];
  }

  /** Plain pieces are even. */
  lemma {:induction false} PlainEven(parts: seq<string>)
    requires forall i :: 0 <= i < |parts| ==> Plain(parts[i])
    ensures Even(parts)
    decreases |parts|
  {
    if parts != [] {
      PlainEven(parts[..|parts| - 1]);
    }
  }

  /** The fixed pieces the walk writes around objects and arrays. */
  lemma OpenBrace()
    ensures Net(["{", "\n"], 1, 0)
  {
    assert ["{", "\n"][..1] == ["{"];
    assert ["{"][..0] == [];
  }

  lemma CloseBrace(tabs: string)
    requires Plain(tabs)
    ensures Net([tabs + "},\n"], -1, 0)
  {
    Suffixed(tabs, "},\n", -1, 0);
  }

  lemma OpenBracket(key: string)
    requires Plain(key)
    ensures Net([key + "\": [\n"], 0, 1)
  {
    Suffixed(key, "\": [\n", 0, 1);
  }

  lemma CloseBracket(extra: string)
    requires Plain(extra)
    ensures Net([extra + "],\n"], 0, -1)
  {
    Suffixed(extra, "],\n", 0, -1);
  }

  lemma KeyLine(key: string)
    requires Plain(key)
    ensures Even([key + "\": "])
  {
    Suffixed(key, "\": ", 0, 0);
  }

  lemma LeafEven(content: string)
    requires Plain(content)
    ensures Even([Leaf(content)])
  {
    Suffixed("\"" + content, "\",\n", 0, 0);
  }

  /** A plain string followed by a fixed suffix. */
  lemma Suffixed(s: string, tail: string, braces: int, brackets: int)
    requires Plain(s)
    requires multiset(tail)['{'] as int - multiset(tail)['}'] as int == braces
    requires multiset(tail)['['] as int - multiset(tail)[']'] as int == brackets
    ensures Net([s + tail], braces, brackets)
  {
    assert multiset(s + tail) == multiset(s) + multiset(tail);
    NetOne(s + tail, braces, brackets);
  }

  /** Pieces with a net of one opening, then even pieces, then one closing. */
  lemma Wrapped(open: seq<string>, mid: seq<string>, close: seq<string>, braces: int, brackets: int)
    requires Net(open, braces, brackets) && Even(mid) && Net(close, -braces, -brackets)
    ensures Even(open + mid + close)
  {
    NetConcat(open, mid, braces, brackets, 0, 0);
    NetConcat(open + mid, close, braces, brackets, -braces, -brackets);
  }

  /** Three runs with balanced brackets stay balanced between an opening
      piece and the closing piece that cancels it. */
  lemma EvenBetween(open: seq<string>, a: seq<string>, b: seq<string>, c: seq<string>, close: seq<string>, braces: int)
    requires Net(open, braces, 0) && Even(a) && Even(b) && Even(c) && Net(close, -braces, 0)
    ensures Even(open + a + b + c + close)
  {
    NetConcat(open, a, braces, 0, 0, 0);
    NetConcat(open + a, b, braces, 0, 0, 0);
    NetConcat(open + a + b, c, braces, 0, 0, 0);
    NetConcat(open + a + b + c, close, braces, 0, -braces, 0);
  }

  lemma PlainJoin(a: string, b: string)
    requires Plain(a) && Plain(b)
    ensures Plain(a + b)
  {
  }

  /** `extra + open + key + middle + value + close` is plain when every part is. */
  lemma PlainLine(extra: string, open: string, key: string, middle: string, value: string, close: string)
    requires Plain(extra) && Plain(open) && Plain(key) && Plain(middle) && Plain(value) && Plain(close)
    ensures Plain(extra + open + key + middle + value + close)
  {
    PlainJoin(extra, open);
    PlainJoin(extra + open, key);
    PlainJoin(extra + open + key, middle);
    PlainJoin(extra + open + key + middle, value);
    PlainJoin(extra + open + key + middle + value, close);
  }

  /** The text line of a plain content is even. */
  lemma TextEven(extra: string, content: string)
    requires Plain(extra) && Plain(content)
    ensures Even(TextLine(extra, content))
  {
    if |content| != 0 {
      PlainJoin(extra, "\"_text\": \"");
      PlainJoin(extra + "\"_text\": \"", content);
      PlainJoin(extra + "\"_text\": \"" + content, "\",\n");
    }
    PlainEven(TextLine(extra, content));
  }

  /** The attribute lines of plain attributes are even. */
  lemma AttrsEven(extra: string, attributes: seq<Attribute>)
    requires Plain(extra)
    requires forall a :: 0 <= a < |attributes| ==> Plain(attributes[a].key) && Plain(attributes[a].value)
    ensures Even(AttrLines(extra, attributes))
  {
    var attrs := AttrLines(extra, attributes);
    forall i | 0 <= i < |attrs| ensures Plain(attrs[i]) {
      PlainLine(extra, "\"#", attributes[i].key, "\": \"", attributes[i].value, "\",\n");
    }
    PlainEven(attrs);
  }

  /** The walk writes as many closing braces and brackets as it opens. */
  lemma {:induction false} JsonEven(els: seq<Element>, id: nat, single: bool, tabs: string, tab: int)
    requires Ordered(els) && id < |els| && PlainTree(els) && Plain(tabs)
    ensures Even(Json(els, id, single, tabs, tab))
    decreases |els| - id + 1, 0, 1
  {
    var node := els[id];
    var head: seq<string> := if single then [] else [tabs];
    PlainEven(head);
    if |node.attributes| == 0 && |node.children| == 0 {
      assert Plain(node.content);
      LeafEven(node.content);
      NetConcat(head, [Leaf(node.content)], 0, 0, 0, 0);
    } else {
      ObjectEven(els, id, tabs, tab);
      NetConcat(head, Object(els, id, tabs, tab), 0, 0, 0, 0);
    }
  }

  lemma {:induction false} ObjectEven(els: seq<Element>, id: nat, tabs: string, tab: int)
    requires Ordered(els) && id < |els| && PlainTree(els) && Plain(tabs)
    ensures Even(Object(els, id, tabs, tab))
    decreases |els| - id + 1, 0, 0
  {
    var node := els[id];
    var extra := tabs + Spaces(tab);
    assert Plain(extra);
    TextEven(extra, node.content);
    AttrsEven(extra, node.attributes);
    GroupsEven(els, id, node.children, extra, tab);
    OpenBrace();
    CloseBrace(tabs);
    EvenBetween(["{", "\n"], TextLine(extra, node.content), AttrLines(extra, node.attributes),
      Groups(els, id, node.children, extra, tab), [tabs + "},\n"], 1);
  }

  lemma {:induction false} GroupsEven(els: seq<Element>, owner: nat, groups: seq<seq<nat>>, extra: string, tab: int)
    requires Ordered(els) && Below(els, owner, groups) && PlainTree(els) && Plain(extra)
    ensures Even(Groups(els, owner, groups, extra, tab))
    decreases |els| - owner, |groups| + 1, 0
  {
    if groups == [] {
      assert Groups(els, owner, groups, extra, tab) == [];
    } else {
      assert Below(els, owner, groups[1..]) by {
        forall g | 0 <= g < |groups[1..]| ensures groups[1..][g] == groups[g + 1] { }
      }
      GroupEven(els, owner, groups[0], extra, tab);
      GroupsEven(els, owner, groups[1..], extra, tab);
      NetConcat(Group(els, owner, groups[0], extra, tab), Groups(els, owner, groups[1..], extra, tab), 0, 0, 0, 0);
    }
  }

  lemma {:induction false} GroupEven(els: seq<Element>, owner: nat, group: seq<nat>, extra: string, tab: int)
    requires Ordered(els) && group != [] && forall c :: 0 <= c < |group| ==> owner < group[c] < |els|
    requires PlainTree(els) && Plain(extra)
    ensures Even(Group(els, owner, group, extra, tab))
    decreases |els| - owner, 1, 0
  {
    var name := els[group[0]].name;
    assert Plain(name);
    if |group| == 1 {
      KeyLine(extra + "\"" + name);
      JsonEven(els, group[0], true, extra, tab);
      NetConcat([extra + "\"" + name + "\": "], Json(els, group[0], true, extra, tab), 0, 0, 0, 0);
    } else {
      var inner := extra + Spaces(tab);
      assert Plain(inner);
      OpenBracket(extra + "\"" + name);
      CloseBracket(extra);
      MembersEven(els, owner, group, inner, tab);
      Wrapped([extra + "\"" + name + "\": [\n"], Members(els, owner, group, inner, tab), [extra + "],\n"], 0, 1);
    }
  }

  lemma {:induction false} MembersEven(els: seq<Element>, owner: nat, group: seq<nat>, tabs: string, tab: int)
    requires Ordered(els) && forall c :: 0 <= c < |group| ==> owner < group[c] < |els|
    requires PlainTree(els) && Plain(tabs)
    ensures Even(Members(els, owner, group, tabs, tab))
    decreases |els| - owner, 0, |group| + 1
  {
    if group == [] {
      assert Members(els, owner, group, tabs, tab) == [];
    } else {
      JsonEven(els, group[0], false, tabs, tab);
      MembersEven(els, owner, group[1..], tabs, tab);
      NetConcat(Json(els, group[0], false, tabs, tab), Members(els, owner, group[1..], tabs, tab), 0, 0, 0, 0);
    }
  }

  /** The comma pass keeps every brace and bracket. */
  lemma WithoutKeeps(s: string, t: string, x: char)
    requires Without(s, {','}) == Without(t, {','}) && x != ','
    ensures multiset(s)[x] == multiset(t)[x]
  {
    WithoutCount(s, x);
    WithoutCount(t, x);
  }

  lemma {:induction false} WithoutCount(s: string, x: char)
    requires x != ','
    ensures multiset(Without(s, {','}))[x] == multiset(s)[x]
    decreases |s|
  {
    if s != [] {
      WithoutCount(s[..|s| - 1], x);
      assert s == s[..|s| - 1] + [s[|s| - 1]];
    }
  }

  /** The JSON text of a document whose names, texts and attributes hold no
      braces or brackets has as many closing braces and brackets as opening
      ones. */
  lemma ConvertedEven(els: seq<Element>, tab: int)
    requires Ordered(els) && |els| > 0 && PlainTree(els)
    ensures var t := Converted(els, tab);
      multiset(t)['{'] == multiset(t)['}'] && multiset(t)['['] == multiset(t)[']']
  {
    var joined := Flatten(Json(els, 0, true, "", tab));
    JsonEven(els, 0, true, "", tab);
    CountFlatten(Json(els, 0, true, "", tab), '{');
    CountFlatten(Json(els, 0, true, "", tab), '}');
    CountFlatten(Json(els, 0, true, "", tab), '[');
    CountFlatten(Json(els, 0, true, "", tab), ']');
    DropOnlyCommas(joined, 0);
    assert joined[0..] == joined;
    var t := Converted(els, tab);
    WithoutKeeps(t, joined, '{');
    WithoutKeeps(t, joined, '}');
    WithoutKeeps(t, joined, '[');
    WithoutKeeps(t, joined, ']');
  }

  // ---------------------------------------------------------------------
  // The writer as an object

  class Converter {
    const elements: seq<Element>
    const tabLength: int
    var jsonList: seq<string>
    var jsonText: string

    /** `XML2JSON(text, tab_length)` once the document is parsed: the walk
        from the root, the join and the comma pass. */
    constructor(elements: seq<Element>, tabLength: int)
      requires Ordered(elements) && |elements| > 0
      ensures this.elements == elements && this.tabLength == tabLength
      ensures jsonList == Json(elements, 0, true, "", tabLength)
      ensures jsonText == Converted(elements, tabLength)
    {
      this.elements := elements;
      this.tabLength := tabLength;
      jsonList := [];
      jsonText := "";
      new;
      AddJsonChildren(0, true, "");
      jsonText := DropCommas(Flatten(jsonList));
    }

    /** `add_json_children`: appends the pieces of one node and, through the
        recursive calls, of everything below it. */
    method AddJsonChildren(node: nat, single: bool, tabs: string)
      requires Ordered(elements) && node < |elements|
      modifies this
      ensures jsonList == old(jsonList) + Json(elements, node, single, tabs, tabLength)
      ensures jsonText == old(jsonText)
      decreases |elements| - node + 1, 0, 1
    {
      ghost var start := jsonList;
      var e := elements[node];
      if !single {
        jsonList := jsonList + [tabs];
      }
      ghost var head := jsonList;
      assert head == start + (if single then [] else [tabs]);
      if |e.attributes| == 0 && |e.children| == 0 {
        jsonList := jsonList + [Leaf(e.content)];
      } else {
        AddObject(node, tabs);
      }
    }

    /** The object of a node with attributes or children. */
    method AddObject(node: nat, tabs: string)
      requires Ordered(elements) && node < |elements|
      modifies this
      ensures jsonList == old(jsonList) + Object(elements, node, tabs, tabLength)
      ensures jsonText == old(jsonText)
      decreases |elements| - node + 1, 0, 0
    {
      ghost var start := jsonList;
      var e := elements[node];
      var extra := tabs + Spaces(tabLength);
      jsonList := jsonList + ["{", "\n"];
      if |e.content| != 0 {
        jsonList := jsonList + [extra + "\"_text\": \"" + e.content + "\",\n"];
      }
      ghost var t := TextLine(extra, e.content);
      assert jsonList == start + ["{", "\n"] + t;
      AddAttributes(extra, e.attributes);
      AddGroups(node, e.children, extra);
      jsonList := jsonList + [tabs + "},\n"];
      ghost var attrs := AttrLines(extra, e.attributes);
      ghost var groups := Groups(elements, node, e.children, extra, tabLength);
      Regroup(start, ["{", "\n"] + t + attrs + groups, [tabs + "},\n"]);
      Regroup(start, ["{", "\n"] + t + attrs, groups);
      Regroup(start, ["{", "\n"] + t, attrs);
      Regroup(start, ["{", "\n"], t);
    }

    /** The attribute loop. */
    method AddAttributes(extra: string, attributes: seq<Attribute>)
      modifies this
      ensures jsonList == old(jsonList) + AttrLines(extra, attributes)
      ensures jsonText == old(jsonText)
    {
      for i := 0 to |attributes|
        invariant jsonList == old(jsonList) + AttrLines(extra, attributes[..i])
        invariant jsonText == old(jsonText)
      {
        var a := attributes[i];
        assert AttrLines(extra, attributes[..i + 1]) == AttrLines(extra, attributes[..i]) + [extra + "\"#" + a.key + "\": \"" + a.value + "\",\n"];
        jsonList := jsonList + [extra + "\"#" + a.key + "\": \"" + a.value + "\",\n"];
      }
      assert attributes[..|attributes|] == attributes;
    }

    /** The loop over the child groups of `owner`. */
    method AddGroups(owner: nat, groups: seq<seq<nat>>, extra: string)
      requires Ordered(elements) && Below(elements, owner, groups)
      modifies this
      ensures jsonList == old(jsonList) + Groups(elements, owner, groups, extra, tabLength)
      ensures jsonText == old(jsonText)
      decreases |elements| - owner, |groups| + 1, 0
    {
      ghost var goal := jsonList + Groups(elements, owner, groups, extra, tabLength);
      for i := 0 to |groups|
        invariant goal == jsonList + Groups(elements, owner, groups[i..], extra, tabLength)
        invariant jsonText == old(jsonText)
      {
        GroupsFrom(elements, owner, groups, i, extra, tabLength);
        ghost var rest := Groups(elements, owner, groups[i + 1..], extra, tabLength);
        ghost var before := jsonList;
        AddGroup(owner, groups[i], extra);
        Regroup(before, Group(elements, owner, groups[i], extra, tabLength), rest);
      }
      assert groups[|groups|..] == [];
      assert goal == jsonList + [];
    }

    /** One group: a single child after its key, or an array of them. */
    method AddGroup(owner: nat, group: seq<nat>, extra: string)
      requires Ordered(elements) && group != [] && forall c :: 0 <= c < |group| ==> owner < group[c] < |elements|
      modifies this
      ensures jsonList == old(jsonList) + Group(elements, owner, group, extra, tabLength)
      ensures jsonText == old(jsonText)
      decreases |elements| - owner, 1, 0
    {
      if |group| == 1 {
        AddSingle(owner, group, extra);
      } else {
        AddArray(owner, group, extra);
      }
    }

    /** A group of one: the key, then the child's own value. */
    method AddSingle(owner: nat, group: seq<nat>, extra: string)
      requires Ordered(elements) && |group| == 1 && owner < group[0] < |elements|
      modifies this
      ensures jsonList == old(jsonList) + Group(elements, owner, group, extra, tabLength)
      ensures jsonText == old(jsonText)
      decreases |elements| - owner, 0, 2
    {
      var key := extra + "\"" + elements[group[0]].name + "\": ";
      ghost var start := jsonList;
      ghost var value := Json(elements, group[0], true, extra, tabLength);
      assert Group(elements, owner, group, extra, tabLength) == [key] + value;
      Regroup(start, [key], value);
      jsonList := jsonList + [key];
      AddJsonChildren(group[0], true, extra);
    }

    /** A group of several: the key, the members one level deeper, the
        closing bracket. */
    method AddArray(owner: nat, group: seq<nat>, extra: string)
      requires Ordered(elements) && |group| > 1 && forall c :: 0 <= c < |group| ==> owner < group[c] < |elements|
      modifies this
      ensures jsonList == old(jsonList) + Group(elements, owner, group, extra, tabLength)
      ensures jsonText == old(jsonText)
      decreases |elements| - owner, 0, |group| + 2
    {
      var name := elements[group[0]].name;
      ghost var start := jsonList;
      jsonList := jsonList + [extra + "\"" + name + "\": [\n"];
      var inner := extra + Spaces(tabLength);
      AddMembers(owner, group, inner);
      jsonList := jsonList + [extra + "],\n"];
      assert jsonList == start + ([extra + "\"" + name + "\": [\n"] + Members(elements, owner, group, inner, tabLength) + [extra + "],\n"]);
    }

    /** The members of a group of several, each not single. */
    method AddMembers(owner: nat, group: seq<nat>, inner: string)
      requires Ordered(elements) && forall c :: 0 <= c < |group| ==> owner < group[c] < |elements|
      modifies this
      ensures jsonList == old(jsonList) + Members(elements, owner, group, inner, tabLength)
      ensures jsonText == old(jsonText)
      decreases |elements| - owner, 0, |group| + 1
    {
      ghost var goal := jsonList + Members(elements, owner, group, inner, tabLength);
      for j := 0 to |group|
        invariant goal == jsonList + Members(elements, owner, group[j..], inner, tabLength)
        invariant jsonText == old(jsonText)
      {
        assert group[j..][0] == group[j] && group[j..][1..] == group[j + 1..];
        ghost var before := jsonList;
        ghost var rest := Members(elements, owner, group[j + 1..], inner, tabLength);
        AddJsonChildren(group[j], false, inner);
        assert goal == before + (Json(elements, group[j], false, inner, tabLength) + rest);
      }
      assert group[|group|..] == [];
      assert goal == jsonList + [];
    }
  }
}
