/** The indentation pass of `prettify` in `formatting.py`: every token goes
    on a line of its own, indented by the number of opening tags still open
    around it. The tokens are taken as given; the regular expressions that
    minify the text and cut it into tokens are not part of this model. */
module Formatting {
  import opened Common

  /** `token[0]` on an empty token, or `token[1]` on the lone `<`, raise IndexError. */
  datatype FormatError = IndexError

  /** How the loop reads a token. */
  datatype Shape = Open | SelfClosing | Close | Text

  /** The tokens the loop can read without indexing past their end. */
  predicate Readable(t: string) {
    |t| > 0 && (t[0] == '<' ==> |t| >= 2)
  }

  /** Exactly two tokens cannot be read: the empty one and `<`. */
  lemma ReadableIff(t: string)
    ensures Readable(t) <==> t != "" && t != "<"
  {
    if t != "" && t[0] == '<' && |t| < 2 {
      assert t == "<";
    }
  }

  /** A tag opening with `<` and not `</` is an opening tag, self-closing when
      its next-to-last character is `/`; `</...` is a closing tag; anything
      else is text. */
  function ShapeOf(t: string): Shape
    requires Readable(t)
  {
    if t[0] == '<' && t[1] != '/' then
      (if t[|t| - 2] != '/' then Open else SelfClosing)
    else if t[0] == '<' then Close
    else Text
  }

  /** One step of the loop over `tabs`: the indentation the token is printed
      with, and the indentation left for the next token. Only an opening
      tag deepens it, by one tab; a closing tag cuts it back to a prefix
      and is printed at that depth; anything else leaves it as it is. */
  function Indent(tabs: string, s: Shape, tab: int): (r: (string, string))
    ensures s != Close ==> r.0 == tabs
    ensures s == Open ==> r.1 == tabs + Spaces(tab)
    ensures s == SelfClosing || s == Text ==> r.1 == tabs
    ensures s == Close ==> r.0 == r.1 && |r.1| <= |tabs| && r.1 == tabs[..|r.1|]
  {
    match s
    case Open => (tabs, tabs + Spaces(tab))
    case Close => var d := Slice(tabs, 0, -tab); (d, d)
    case _ => (tabs, tabs)
  }

  /** The lines the loop appends for `toks`, starting from indentation `tabs`;
      each line is a newline, the indentation and the token. When it
      succeeds, every token was readable and has exactly one line. */
  function LinesFrom(tabs: string, toks: seq<string>, tab: int): (r: Result<seq<string>, FormatError>)
    ensures r.Ok? ==> |r.value| == |toks| && forall i :: 0 <= i < |toks| ==> Readable(toks[i])
    decreases |toks|
  {
    if toks == [] then Ok([])
    else if !Readable(toks[0]) then Err(IndexError)
    else
      var (printed, next) := Indent(tabs, ShapeOf(toks[0]), tab);
      match LinesFrom(next, toks[1..], tab)
      case Ok(rest) => Ok(["\n" + printed + toks[0]] + rest)
      case Err(e) => Err(e)
  }

  /** What `prettify` returns for `tokens`: the lines joined, less the
      newline at the front. No tokens give the empty text, and a result
      means every token was readable. */
  function Prettified(tokens: seq<string>, tab: int): (r: Result<string, FormatError>)
    ensures tokens == [] ==> r == Ok("")
    ensures r.Ok? ==> forall i :: 0 <= i < |tokens| ==> Readable(tokens[i])
  {
    match LinesFrom("", tokens, tab)
    case Ok(lines) => Ok(SliceFrom(Flatten(lines), 1))
    case Err(e) => Err(e)
  }

  /** The lines `done` already appended followed by those for `rest`. */
  function Continue(done: seq<string>, tabs: string, rest: seq<string>, tab: int): Result<seq<string>, FormatError> {
    match LinesFrom(tabs, rest, tab)
    case Ok(lines) => Ok(done + lines)
    case Err(e) => Err(e)
  }

  /** The token loop of `prettify`, then the join and the dropped first newline. */
  method Prettify(tokens: seq<string>, tabLength: int) returns (r: Result<string, FormatError>)
    ensures r == Prettified(tokens, tabLength)
  {
    var text: seq<string> := [];
    var tabs := "";
    assert tokens[0..] == tokens;
    assert Continue([], "", tokens, tabLength) == LinesFrom("", tokens, tabLength) by {
      match LinesFrom("", tokens, tabLength)
      case Ok(lines) => assert [] + lines == lines;
      case Err(_) =>
    }
    for i := 0 to |tokens|
      invariant LinesFrom("", tokens, tabLength) == Continue(text, tabs, tokens[i..], tabLength)
    {
      var token := tokens[i];
      assert tokens[i..][0] == token && tokens[i..][1..] == tokens[i + 1..];
      if |token| == 0 || (token[0] == '<' && |token| < 2) {
        return Err(IndexError);
      }
      var before, printed := tabs, tabs;
      if token[0] == '<' && token[1] != '/' {
        if token[|token| - 2] != '/' {
          tabs := tabs + Spaces(tabLength);
        }
      } else if token[0] == '<' && token[1] == '/' {
        tabs := Slice(tabs, 0, -tabLength);
        printed := tabs;
      }
      var line := "\n" + printed + token;
      assert (printed, tabs) == Indent(before, ShapeOf(token), tabLength) && line == "\n" + printed + token;
      ContinueStep(text, before, tokens[i..], tabLength);
      text := text + [line];
    }
    assert tokens[|tokens|..] == [] && text + [] == text;
    r := Ok(SliceFrom(Flatten(text), 1));
  }

  /** One token taken off the rest moves its line into the lines done. */
  lemma ContinueStep(done: seq<string>, tabs: string, rest: seq<string>, tab: int)
    requires rest != [] && Readable(rest[0])
    ensures var (printed, next) := Indent(tabs, ShapeOf(rest[0]), tab);
      Continue(done, tabs, rest, tab) == Continue(done + ["\n" + printed + rest[0]], next, rest[1..], tab)
  {
    var (printed, next) := Indent(tabs, ShapeOf(rest[0]), tab);
    match LinesFrom(next, rest[1..], tab)
    case Ok(lines) =>
      assert done + (["\n" + printed + rest[0]] + lines) == (done + ["\n" + printed + rest[0]]) + lines;
    case Err(_) =>
  }

  // ---------------------------------------------------------------------
  // The reference layout: levels counted over the token shapes.

  /** The level after a token at level `d`: an opening tag goes one deeper, a
      closing tag one shallower (never below the margin), the rest stay. */
  function Shift(d: nat, s: Shape): nat {
    match s
    case Open => d + 1
    case Close => if d > 0 then d - 1 else 0
    case _ => d
  }

  /** The level a token at level `d` is printed at: a closing tag is printed
      after its level is taken off. */
  function Column(d: nat, s: Shape): nat {
    match s
    case Close => if d > 0 then d - 1 else 0
    case _ => d
  }

  /** The level after `toks`, starting at `d`; tokens that cannot be read
      leave it. */
  function LevelFrom(d: nat, toks: seq<string>): nat
    decreases |toks|
  {
    if toks == [] then d
    else LevelFrom(if Readable(toks[0]) then Shift(d, ShapeOf(toks[0])) else d, toks[1..])
  }

  /** `d` levels of `tab` spaces each. */
  function Margin(tab: int, d: nat): (m: string)
    ensures |m| == d * (if tab > 0 then tab else 0)
    ensures forall k :: 0 <= k < |m| ==> m[k] == ' '
  {
    if d == 0 then "" else Margin(tab, d - 1) + Spaces(tab)
  }

  /** The loop's indentation string is always a whole number of levels, and
      each step moves it as the shapes move the level. */
  lemma IndentLevels(tab: int, d: nat, s: Shape)
    ensures Indent(Margin(tab, d), s, tab) == (Margin(tab, Column(d, s)), Margin(tab, Shift(d, s)))
  {
    if s == Close {
      var m := Margin(tab, d);
      if d > 0 {
        var below := Margin(tab, d - 1);
        assert m == below + Spaces(tab);
        if tab > 0 {
          assert SliceBound(-tab, |m|) == |below|;
          assert m[..|below|] == below;
        } else {
          assert |m| == 0 && SliceBound(-tab, |m|) == 0;
        }
      } else {
        assert Slice(m, 0, -tab) == "";
      }
    }
  }

  /** Every token gets exactly one line, in order: a newline, the spaces of
      the level it is printed at, and the token itself. */
  lemma {:induction false} LinesLevels(tab: int, d: nat, toks: seq<string>)
    requires LinesFrom(Margin(tab, d), toks, tab).Ok?
    ensures var lines := LinesFrom(Margin(tab, d), toks, tab).value;
      |lines| == |toks|
      && forall i :: 0 <= i < |toks| ==>
        Readable(toks[i]) && lines[i] == "\n" + Margin(tab, Column(LevelFrom(d, toks[..i]), ShapeOf(toks[i]))) + toks[i]
    decreases |toks|
  {
    if toks != [] {
      var t := toks[0];
      var d' := Shift(d, ShapeOf(t));
      IndentLevels(tab, d, ShapeOf(t));
      LinesLevels(tab, d', toks[1..]);
      var lines := LinesFrom(Margin(tab, d), toks, tab).value;
      var rest := LinesFrom(Margin(tab, d'), toks[1..], tab).value;
      assert lines == ["\n" + Margin(tab, Column(d, ShapeOf(t))) + t] + rest;
      forall i | 0 <= i < |toks|
        ensures Readable(toks[i]) && lines[i] == "\n" + Margin(tab, Column(LevelFrom(d, toks[..i]), ShapeOf(toks[i]))) + toks[i]
      {
        if i == 0 {
          assert toks[..0] == [];
        } else {
          assert toks[..i][1..] == toks[1..][..i - 1];
          assert toks[i] == toks[1..][i - 1];
          assert lines[i] == rest[i - 1];
        }
      }
    }
  }

  /** The pass fails exactly when some token cannot be read. */
  lemma {:induction false} LinesError(tabs: string, toks: seq<string>, tab: int)
    ensures LinesFrom(tabs, toks, tab).Err? <==> exists i :: 0 <= i < |toks| && !Readable(toks[i])
    decreases |toks|
  {
    if toks != [] && Readable(toks[0]) {
      var next := Indent(tabs, ShapeOf(toks[0]), tab).1;
      LinesError(next, toks[1..], tab);
      if exists i :: 0 <= i < |toks| && !Readable(toks[i]) {
        var i :| 0 <= i < |toks| && !Readable(toks[i]);
        assert toks[1..][i - 1] == toks[i];
      }
      if exists i :: 0 <= i < |toks[1..]| && !Readable(toks[1..][i]) {
        var i :| 0 <= i < |toks[1..]| && !Readable(toks[1..][i]);
        assert toks[i + 1] == toks[1..][i];
      }
    }
  }

  lemma PrettyError(tokens: seq<string>, tab: int)
    ensures Prettified(tokens, tab).Err? <==> exists i :: 0 <= i < |tokens| && (tokens[i] == "" || tokens[i] == "<")
  {
    LinesError("", tokens, tab);
    forall i | 0 <= i < |tokens|
      ensures !Readable(tokens[i]) <==> tokens[i] == "" || tokens[i] == "<"
    {
      ReadableIff(tokens[i]);
    }
  }

  /** The first token's line is the token itself after a newline. */
  lemma FirstLine(tokens: seq<string>, tab: int)
    requires LinesFrom("", tokens, tab).Ok? && tokens != []
    ensures |LinesFrom("", tokens, tab).value| == |tokens|
    ensures LinesFrom("", tokens, tab).value[0] == "\n" + tokens[0]
  {
    assert Margin(tab, 0) == "";
    LinesLevels(tab, 0, tokens);
    assert tokens[..0] == [];
    assert Column(LevelFrom(0, tokens[..0]), ShapeOf(tokens[0])) == 0;
  }

  /** No tokens give the empty text; otherwise the text starts with the
      first token itself, with no newline or indentation before it, and the
      lines of the later tokens follow. */
  lemma PrettyStart(tokens: seq<string>, tab: int)
    requires Prettified(tokens, tab).Ok?
    ensures tokens == [] ==> Prettified(tokens, tab).value == ""
    ensures tokens != [] ==>
      Prettified(tokens, tab).value == tokens[0] + Flatten(LinesFrom("", tokens, tab).value[1..])
  {
    if tokens != [] {
      var lines := LinesFrom("", tokens, tab).value;
      FirstLine(tokens, tab);
      assert lines == [lines[0]] + lines[1..];
      FlattenConcat([lines[0]], lines[1..]);
      assert Flatten([lines[0]]) == lines[0] by {
        assert [lines[0]][..0] == [];
      }
      var flat := Flatten(lines);
      assert flat == "\n" + (tokens[0] + Flatten(lines[1..]));
      assert flat[1..] == tokens[0] + Flatten(lines[1..]);
    }
  }

  // ---------------------------------------------------------------------
  // Well-nested input: closing tags line up with their opening tags.

  /** No closing tag of `toks` goes above the level `d` it starts from. */
  predicate Nested(d: nat, toks: seq<string>)
    decreases |toks|
  {
    toks == [] ||
      (Readable(toks[0]) &&
       (ShapeOf(toks[0]) == Close ==> d > 0) &&
       Nested(Shift(d, ShapeOf(toks[0])), toks[1..]))
  }

  /** A well-nested stretch, started at any level, ends at that level. */
  predicate Balanced(toks: seq<string>) {
    Nested(0, toks) && LevelFrom(0, toks) == 0
  }

  /** A stretch that never goes above its start level moves every level by
      the same amount. */
  lemma {:induction false} NestedShift(base: nat, extra: nat, toks: seq<string>)
    requires Nested(base, toks)
    ensures Nested(base + extra, toks)
    ensures LevelFrom(base + extra, toks) == extra + LevelFrom(base, toks)
    decreases |toks|
  {
    if toks != [] {
      var s := ShapeOf(toks[0]);
      NestedShift(Shift(base, s), extra, toks[1..]);
      assert Shift(base + extra, s) == Shift(base, s) + extra;
    }
  }

  /** The level after an opening tag, a balanced stretch and a closing tag. */
  lemma {:induction false} WrappedLevel(d: nat, open: string, seg: seq<string>, close: string)
    requires Readable(open) && ShapeOf(open) == Open
    requires Readable(close) && ShapeOf(close) == Close
    requires Balanced(seg)
    ensures LevelFrom(d, [open] + seg) == d + 1
    ensures LevelFrom(d, [open] + seg + [close]) == d
  {
    NestedShift(0, d + 1, seg);
    assert ([open] + seg)[1..] == seg;
    assert ([open] + seg + [close])[1..] == seg + [close];
    LevelAppend(d + 1, seg, close);
  }

  lemma {:induction false} LevelAppend(d: nat, toks: seq<string>, last: string)
    requires Readable(last)
    ensures LevelFrom(d, toks + [last]) == Shift(LevelFrom(d, toks), ShapeOf(last))
    decreases |toks|
  {
    if toks == [] {
      assert [] + [last] == [last] && [last][1..] == [];
    } else {
      assert (toks + [last])[1..] == toks[1..] + [last];
      LevelAppend(if Readable(toks[0]) then Shift(d, ShapeOf(toks[0])) else d, toks[1..], last);
    }
  }

  /** In an opening tag, a well-nested stretch and a closing tag printed
      from any level, the closing tag's line has exactly the indentation of
      the opening tag's line. */
  lemma AlignedClose(tab: int, d: nat, open: string, seg: seq<string>, close: string)
    requires Readable(open) && ShapeOf(open) == Open
    requires Readable(close) && ShapeOf(close) == Close
    requires Balanced(seg)
    requires LinesFrom(Margin(tab, d), [open] + seg + [close], tab).Ok?
    ensures var lines := LinesFrom(Margin(tab, d), [open] + seg + [close], tab).value;
      |lines| == |seg| + 2
      && lines[0] == "\n" + Margin(tab, d) + open
      && lines[|lines| - 1] == "\n" + Margin(tab, d) + close
  {
    var toks := [open] + seg + [close];
    LinesLevels(tab, d, toks);
    WrappedLevel(d, open, seg, close);
    assert toks[..0] == [];
    assert toks[..|toks| - 1] == [open] + seg;
    assert toks[|toks| - 1] == close;
  }
}
