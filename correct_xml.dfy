/** The repair pass of `correct_xml.py` over a list of tokens (tags and
    text runs): opening tags are pushed on a stack, a closing tag closes
    whatever was opened after the tag it names, a closing tag that nothing
    open carries gets an opening tag made up for it, and whatever is still
    open at the end is closed. The result is the repaired token list and
    its concatenation, the text the source then hands to `prettify`. */
module CorrectXml {
  import opened Common

  /* ---------------------------------------------------------------- */
  /* Tokens                                                            */
  /* ---------------------------------------------------------------- */

  /** How the loop reads a token: `<…` not followed by `/` opens the name
      `token[1:-1]`, `</…` closes the name `token[2:-1]`, anything else is
      text. */
  datatype Kind = Opening(name: string) | Closing(name: string) | Content

  /** The kind of a token; None where the source indexes past its end
      (`token[0]` of an empty token, `token[1]` of the token `<`). */
  function Classify(t: string): Option<Kind> {
    if t == "" then None
    else if t[0] != '<' then Some(Content)
    else if |t| < 2 then None
    else if t[1] != '/' then Some(Opening(Slice(t, 1, -1)))
    else Some(Closing(Slice(t, 2, -1)))
  }

  function OpenTag(name: string): string {
    "<" + name + ">"
  }

  function CloseTag(name: string): string {
    "</" + name + ">"
  }

  /** A made-up tag reads back as the name it was made from; an opening one
      does when the name does not start with `/`. */
  lemma ReadBack(name: string)
    ensures Classify(CloseTag(name)) == Some(Closing(name))
    ensures name == "" || name[0] != '/' ==> Classify(OpenTag(name)) == Some(Opening(name))
  {
    var c := CloseTag(name);
    assert Slice(c, 2, -1) == c[2..|c| - 1] == name;
    var o := OpenTag(name);
    assert Slice(o, 1, -1) == o[1..|o| - 1] == name;
  }

  /** The closing tags for every name of `stack`, the top first. */
  function Closings(stack: seq<string>): seq<string>
    decreases |stack|
  {
    if stack == [] then [] else [CloseTag(stack[|stack| - 1])] + Closings(stack[..|stack| - 1])
  }

  /** Closing one more name below a stretch of the stack closes it last. */
  lemma {:induction false} ClosingsBottom(stack: seq<string>, k: nat)
    requires 0 < k <= |stack|
    ensures Closings(stack[k - 1..]) == Closings(stack[k..]) + [CloseTag(stack[k - 1])]
    decreases |stack|
  {
    if k == |stack| {
      assert stack[k - 1..] == [stack[k - 1]];
      assert stack[k..] == [];
    } else {
      var front := stack[..|stack| - 1];
      ClosingsBottom(front, k);
      assert stack[k - 1..][..|stack[k - 1..]| - 1] == front[k - 1..];
      assert stack[k..][..|stack[k..]| - 1] == front[k..];
    }
  }

  /** The `t`-th closing tag closes the `t`-th name from the top. */
  lemma {:induction false} ClosingsOrder(stack: seq<string>)
    ensures |Closings(stack)| == |stack|
    ensures forall t :: 0 <= t < |stack| ==> Closings(stack)[t] == CloseTag(stack[|stack| - 1 - t])
    decreases |stack|
  {
    if stack != [] {
      ClosingsOrder(stack[..|stack| - 1]);
    }
  }

  /* ---------------------------------------------------------------- */
  /* The pass                                                          */
  /* ---------------------------------------------------------------- */

  /** The list `xml` being built and the stack of open names. */
  datatype Repair = Repair(out: seq<string>, stack: seq<string>)

  datatype RepairError = NoTokens | BadToken(token: string)

  /** What one token of kind `k` appends to the output, and the stack
      after it. A closing name found in the stack closes the names above
      its nearest occurrence, top first, and then itself. One not found
      closes the whole stack, top first, and is emitted after an opening
      tag made for it; on an empty stack that is all it does. Something is
      always emitted, and only an opening tag makes the stack grow: every
      other token leaves a bottom part of it. */
  function Emit(stack: seq<string>, t: string, k: Kind): (r: (seq<string>, seq<string>))
    ensures r.0 != []
    ensures k.Opening? ==> r.1 == stack + [k.name]
    ensures !k.Opening? ==> |r.1| <= |stack| && r.1 == stack[..|r.1|]
  {
    match k
    case Content => ([t], stack)
    case Opening(name) => ([t], stack + [name])
    case Closing(name) =>
      if name in stack then
        var j := LastIndex(stack, name);
        (Closings(stack[j + 1..]) + [CloseTag(name)], stack[..j])
      else
        (Closings(stack) + [OpenTag(name), t], [])
  }

  /** One token of the loop: an unreadable token stops it, any other adds
      to the output and keeps what was there. */
  function RepairStep(st: Repair, t: string): (r: Result<Repair, RepairError>)
    ensures r.Ok? <==> Classify(t).Some?
    ensures r.Err? ==> r.error == BadToken(t)
    ensures r.Ok? ==> |st.out| < |r.value.out| && r.value.out[..|st.out|] == st.out
  {
    match Classify(t)
    case None => Err(BadToken(t))
    case Some(k) =>
      var (added, stack) := Emit(st.stack, t, k);
      Ok(Repair(st.out + added, stack))
  }

  function RepairFrom(st: Repair, toks: seq<string>): Result<Repair, RepairError>
    decreases |toks|
  {
    if toks == [] then Ok(st)
    else
      match RepairStep(st, toks[0])
      case Err(e) => Err(e)
      case Ok(next) => RepairFrom(next, toks[1..])
  }

  /** The name of the first token equals the closing name of the last
      (`tokens[0][1:-1] == tokens[-1][2:-1]`). */
  predicate RootMatched(tokens: seq<string>)
    requires tokens != []
  {
    Slice(tokens[0], 1, -1) == Slice(tokens[|tokens| - 1], 2, -1)
  }

  /** The tokens the loop visits: `tokens[1:-1]` when the root matches,
      `tokens[1:]` otherwise. */
  function Body(tokens: seq<string>): seq<string>
    requires tokens != []
  {
    if RootMatched(tokens) then Slice(tokens, 1, -1) else tokens[1..]
  }

  /** The repaired list: the first token, the loop's output, closings for
      what is still open, and the root's closing tag when the root matched. */
  function Repaired(tokens: seq<string>): (r: Result<seq<string>, RepairError>)
    ensures tokens == [] ==> r == Err(NoTokens)
    ensures r.Ok? ==> r.value != [] && r.value[0] == tokens[0]
    ensures r.Ok? && RootMatched(tokens) ==> r.value[|r.value| - 1] == CloseTag(Slice(tokens[0], 1, -1))
  {
    if tokens == [] then Err(NoTokens)
    else
      match RepairFrom(Repair([tokens[0]], []), Body(tokens))
      case Err(e) => Err(e)
      case Ok(st) =>
        var tail := if RootMatched(tokens) then [CloseTag(Slice(tokens[0], 1, -1))] else [];
        var out := st.out + Closings(st.stack) + tail;
        assert out[0] == tokens[0] by {
          RunKeeps(Repair([tokens[0]], []), Body(tokens));
          assert st.out[0] == tokens[0];
        }
        Ok(out)
  }

  /** `''.join(xml)` before `prettify`: it begins with the first token. */
  function Corrected(tokens: seq<string>): (r: Result<string, RepairError>)
    ensures tokens == [] ==> r == Err(NoTokens)
    ensures r.Ok? ==> |tokens[0]| <= |r.value| && r.value[..|tokens[0]|] == tokens[0]
  {
    match Repaired(tokens)
    case Err(e) => Err(e)
    case Ok(out) =>
      assert [out[0]] + out[1..] == out;
      FlattenConcat([out[0]], out[1..]);
      FlattenAppend([], out[0]);
      assert [] + [out[0]] == [out[0]];
      Ok(Flatten(out))
  }

  /** The inner `while` of the closing branch (lines 25 to 31): closes
      names from the top until the top is `name` or the stack is empty,
      made-up opening and the token itself emitted as the last one goes. */
  method CloseAbove(out0: seq<string>, stack0: seq<string>, token: string, name: string)
      returns (out: seq<string>, stack: seq<string>, entered: bool)
    ensures entered <==> |stack| < |stack0|
    ensures name in stack0 ==> var j := LastIndex(stack0, name);
      stack == stack0[..j + 1] && out == out0 + Closings(stack0[j + 1..])
    ensures name !in stack0 ==> stack == [] && out == out0 + Closings(stack0) + if entered then [OpenTag(name), token] else []
  {
    out, stack := out0, stack0;
    entered := false;
    assert stack0[|stack0|..] == [];
    while |stack| > 0 && stack[|stack| - 1] != name
      invariant Above(out0, stack0, token, name, out, stack, entered)
      decreases |stack|
    {
      AboveStep(out0, stack0, token, name, out, stack, entered);
      entered := true;
      out := out + [CloseTag(stack[|stack| - 1])];
      if |stack| == 1 {
        out := out + [OpenTag(name), token];
      }
      stack := stack[..|stack| - 1];
    }
    AboveDone(out0, stack0, token, name, out, stack, entered);
  }

  /** What the inner `while` keeps: `stack` is what is left of `stack0`,
      none of the names taken off is `name`, and `out` closes them from
      the top, with the made-up opening and the token once all are gone. */
  ghost predicate Above(out0: seq<string>, stack0: seq<string>, token: string, name: string,
                        out: seq<string>, stack: seq<string>, entered: bool) {
    |stack| <= |stack0| && stack == stack0[..|stack|]
    && (entered <==> |stack| < |stack0|)
    && (forall t :: |stack| <= t < |stack0| ==> stack0[t] != name)
    && out == out0 + Closings(stack0[|stack|..]) + if stack == [] && entered then [OpenTag(name), token] else []
  }

  /** One turn of the inner `while` keeps `Above`. */
  lemma AboveStep(out0: seq<string>, stack0: seq<string>, token: string, name: string,
                  out: seq<string>, stack: seq<string>, entered: bool)
    requires Above(out0, stack0, token, name, out, stack, entered)
    requires |stack| > 0 && stack[|stack| - 1] != name
    ensures Above(out0, stack0, token, name,
      out + [CloseTag(stack[|stack| - 1])] + (if |stack| == 1 then [OpenTag(name), token] else []),
      stack[..|stack| - 1], true)
  {
    ClosingsBottom(stack0, |stack|);
  }

  /** When the inner `while` stops, `Above` gives the outcome `CloseAbove`
      promises. */
  lemma AboveDone(out0: seq<string>, stack0: seq<string>, token: string, name: string,
                  out: seq<string>, stack: seq<string>, entered: bool)
    requires Above(out0, stack0, token, name, out, stack, entered)
    requires !(|stack| > 0 && stack[|stack| - 1] != name)
    ensures entered <==> |stack| < |stack0|
    ensures name in stack0 ==> var j := LastIndex(stack0, name);
      stack == stack0[..j + 1] && out == out0 + Closings(stack0[j + 1..])
    ensures name !in stack0 ==> stack == [] && out == out0 + Closings(stack0) + if entered then [OpenTag(name), token] else []
  {
    if name in stack0 {
      var j := LastIndex(stack0, name);
      assert |stack| - 1 == j;
    } else {
      assert stack0[0..] == stack0;
    }
  }

  /** The closing branch of the loop (lines 23 to 39): the inner `while`
      and the two follow-up tests. */
  method CloseOff(out0: seq<string>, stack0: seq<string>, token: string, name: string)
      returns (out: seq<string>, stack: seq<string>)
    ensures var (added, after) := Emit(stack0, token, Closing(name));
      out == out0 + added && stack == after
  {
    var entered;
    out, stack, entered := CloseAbove(out0, stack0, token, name);
    if name in stack0 {
      assert |stack| > 0 && stack[|stack| - 1] == stack0[LastIndex(stack0, name)];
    }
    if |stack| > 0 && stack[|stack| - 1] == name {
      assert name in stack0;
      var j := LastIndex(stack0, name);
      assert stack[..|stack| - 1] == stack0[..j];
      out := out + [CloseTag(stack[|stack| - 1])];
      stack := stack[..|stack| - 1];
    } else if !entered {
      assert name !in stack0 && stack0 == [] && Closings(stack0) == [];
      assert out == out0 && stack == [];
      out := out + [OpenTag(name), token];
      assert out0 + Closings(stack0) + [OpenTag(name), token] == out;
    }
  }

  /** One token of the loop (lines 19 to 42); `ok` is false where the
      source raises IndexError. */
  method Feed(out0: seq<string>, stack0: seq<string>, token: string)
      returns (ok: bool, out: seq<string>, stack: seq<string>)
    ensures ok <==> RepairStep(Repair(out0, stack0), token).Ok?
    ensures ok ==> RepairStep(Repair(out0, stack0), token) == Ok(Repair(out, stack))
  {
    out, stack := out0, stack0;
    if |token| == 0 || (token[0] == '<' && |token| < 2) {
      return false, out, stack;
    }
    ok := true;
    if token[0] == '<' && token[1] != '/' {
      out := out + [token];
      stack := stack + [Slice(token, 1, -1)];
    } else if token[0] == '<' && token[1] == '/' {
      out, stack := CloseOff(out, stack, token, Slice(token, 2, -1));
    } else {
      out := out + [token];
    }
  }

  /** `correct_xml` from the tokens on, up to the join. */
  method Correct(tokens: seq<string>) returns (r: Result<string, RepairError>)
    ensures r == Corrected(tokens)
  {
    if tokens == [] {
      return Err(NoTokens);
    }
    var mismatchedFirstTag: int := 1;
    if Slice(tokens[0], 1, -1) != Slice(tokens[|tokens| - 1], 2, -1) {
      mismatchedFirstTag := -|tokens|;
    }
    var body := Slice(tokens, 1, -mismatchedFirstTag);
    assert body == Body(tokens);
    var xml := [tokens[0]];
    var stack: seq<string> := [];
    for i := 0 to |body|
      invariant RepairFrom(Repair([tokens[0]], []), body) == RepairFrom(Repair(xml, stack), body[i..])
    {
      var ok;
      ok, xml, stack := Feed(xml, stack, body[i]);
      if !ok {
        return Err(BadToken(body[i]));
      }
      assert body[i..][1..] == body[i + 1..];
    }
    assert body[|body|..] == [];
    assert RepairFrom(Repair([tokens[0]], []), Body(tokens)) == Ok(Repair(xml, stack));
    ghost var left := Closings(stack);
    ghost var done := xml;
    while |stack| > 0
      invariant done + left == xml + Closings(stack)
      decreases |stack|
    {
      xml := xml + [CloseTag(stack[|stack| - 1])];
      stack := stack[..|stack| - 1];
    }
    assert xml == done + left;
    assert mismatchedFirstTag == 1 <==> RootMatched(tokens);
    if mismatchedFirstTag == 1 {
      xml := xml + [CloseTag(Slice(tokens[0], 1, -1))];
    }
    assert Repaired(tokens) == Ok(xml);
    r := Ok(Flatten(xml));
  }

  /* ---------------------------------------------------------------- */
  /* Properties                                                        */
  /* ---------------------------------------------------------------- */

  /** Reading `toks` with the loop's classification from the open names
      `stack`: every closing name must be the top one. The result is the
      stack left open, or None at a mismatch or an unreadable token. */
  function Balance(toks: seq<string>, stack: seq<string>): Option<seq<string>>
    decreases |toks|
  {
    if toks == [] then Some(stack)
    else match Classify(toks[0])
      case None => None
      case Some(Content) => Balance(toks[1..], stack)
      case Some(Opening(name)) => Balance(toks[1..], stack + [name])
      case Some(Closing(name)) =>
        if stack != [] && stack[|stack| - 1] == name then Balance(toks[1..], stack[..|stack| - 1]) else None
  }

  lemma {:induction false} BalanceConcat(a: seq<string>, b: seq<string>, stack: seq<string>)
    requires Balance(a, stack).Some?
    ensures Balance(a + b, stack) == Balance(b, Balance(a, stack).value)
    decreases |a|
  {
    if a != [] {
      assert (a + b)[0] == a[0] && (a + b)[1..] == a[1..] + b;
      match Classify(a[0])
      case Some(Content) => BalanceConcat(a[1..], b, stack);
      case Some(Opening(name)) => BalanceConcat(a[1..], b, stack + [name]);
      case Some(Closing(name)) => BalanceConcat(a[1..], b, stack[..|stack| - 1]);
    } else {
      assert a + b == b;
    }
  }

  /** Closing the names above position `k`, top first, is well nested and
      leaves the names below `k` open. */
  lemma {:induction false} ClosingsBalance(stack: seq<string>, k: nat)
    requires k <= |stack|
    ensures Balance(Closings(stack[k..]), stack) == Some(stack[..k])
    decreases |stack| - k
  {
    if k < |stack| {
      var top := stack[|stack| - 1];
      var below := stack[..|stack| - 1];
      ReadBack(top);
      assert stack[k..][..|stack[k..]| - 1] == below[k..];
      var rest := Closings(below[k..]);
      assert Closings(stack[k..]) == [CloseTag(top)] + rest;
      assert ([CloseTag(top)] + rest)[1..] == rest;
      ClosingsBalance(below, k);
      assert below[..k] == stack[..k];
    } else {
      assert stack[..k] == stack;
    }
  }

  /** Tokens whose made-up opening tag reads back: a closing name that
      does not start with `/`. */
  predicate Clean(t: string) {
    match Classify(t)
    case Some(Closing(name)) => name == "" || name[0] != '/'
    case _ => true
  }

  /** Closing a name found in the stack is well nested over it. */
  lemma ShutFound(stack: seq<string>, name: string)
    requires name in stack
    ensures var j := LastIndex(stack, name);
      Balance(Closings(stack[j + 1..]) + [CloseTag(name)], stack) == Some(stack[..j])
  {
    var j := LastIndex(stack, name);
    var shut := Closings(stack[j + 1..]);
    var top := stack[..j + 1];
    ClosingsBalance(stack, j + 1);
    BalanceConcat(shut, [CloseTag(name)], stack);
    assert Balance([CloseTag(name)], top) == Some(stack[..j]) by {
      ReadBack(name);
      assert [CloseTag(name)][1..] == [];
      assert top[|top| - 1] == name && top[..|top| - 1] == stack[..j];
    }
  }

  /** Closing the whole stack and then a made-up pair is well nested over it. */
  lemma ShutMissing(stack: seq<string>, name: string, t: string)
    requires Classify(t) == Some(Closing(name)) && (name == "" || name[0] != '/')
    ensures Balance(Closings(stack) + [OpenTag(name), t], stack) == Some([])
  {
    var shut := Closings(stack);
    ClosingsBalance(stack, 0);
    assert stack[0..] == stack && stack[..0] == [];
    BalanceConcat(shut, [OpenTag(name), t], stack);
    ReadBack(name);
    var o := OpenTag(name);
    assert [o, t][0] == o && [o, t][1..] == [t] && [t][1..] == [];
    assert Balance([o, t], []) == Balance([t], [] + [name]);
    assert [name][..0] == [];
    assert Balance([t], [name]) == Balance([], []);
  }

  /** What one token emits is well nested over the stack before it and
      leaves exactly the stack after it open. */
  lemma EmitBalanced(stack: seq<string>, t: string)
    requires Clean(t) && Classify(t).Some?
    ensures var (added, after) := Emit(stack, t, Classify(t).value);
      Balance(added, stack) == Some(after)
  {
    match Classify(t).value
    case Content =>
      assert [t][1..] == [];
    case Opening(name) =>
      assert [t][1..] == [];
    case Closing(name) =>
      if name in stack {
        ShutFound(stack, name);
      } else {
        ShutMissing(stack, name, t);
      }
  }

  /** One token keeps that property: the output from `base` stays well
      nested and leaves open exactly the new stack. */
  lemma StepBalanced(st: Repair, t: string, base: nat)
    requires base <= |st.out| && Balance(st.out[base..], []) == Some(st.stack)
    requires Clean(t) && Classify(t).Some?
    ensures var next := RepairStep(st, t).value;
      base <= |next.out| && next.out[..base] == st.out[..base] && Balance(next.out[base..], []) == Some(next.stack)
  {
    var (added, after) := Emit(st.stack, t, Classify(t).value);
    EmitBalanced(st.stack, t);
    var next := RepairStep(st, t).value;
    assert next == Repair(st.out + added, after);
    assert next.out[base..] == st.out[base..] + added;
    BalanceConcat(st.out[base..], added, []);
  }

  /** The loop's output, from the point it starts, is well nested over the
      names it opened itself and leaves open exactly its stack. */
  lemma {:induction false} RunBalanced(st: Repair, toks: seq<string>, base: nat)
    requires base <= |st.out| && Balance(st.out[base..], []) == Some(st.stack)
    requires forall i :: 0 <= i < |toks| ==> Clean(toks[i])
    requires RepairFrom(st, toks).Ok?
    ensures var fin := RepairFrom(st, toks).value;
      base <= |fin.out| && fin.out[..base] == st.out[..base] && Balance(fin.out[base..], []) == Some(fin.stack)
    decreases |toks|
  {
    if toks != [] {
      var next := RepairStep(st, toks[0]).value;
      StepBalanced(st, toks[0], base);
      assert RepairFrom(st, toks) == RepairFrom(next, toks[1..]);
      RunBalanced(next, toks[1..], base);
    }
  }

  /** The body of the repaired list (the loop's output after the first
      token, then the closings of what is left) is well nested. */
  lemma BodyNested(tokens: seq<string>)
    requires tokens != [] && RepairFrom(Repair([tokens[0]], []), Body(tokens)).Ok?
    requires forall i :: 1 <= i < |tokens| ==> Clean(tokens[i])
    ensures var fin := RepairFrom(Repair([tokens[0]], []), Body(tokens)).value;
      |fin.out| >= 1 && fin.out == [tokens[0]] + fin.out[1..] && Balance(fin.out[1..] + Closings(fin.stack), []) == Some([])
  {
    var body := Body(tokens);
    forall i | 0 <= i < |body|
      ensures Clean(body[i])
    {
      assert body[i] == tokens[i + 1];
    }
    var start := Repair([tokens[0]], []);
    assert start.out[1..] == [];
    RunBalanced(start, body, 1);
    var fin := RepairFrom(start, body).value;
    ClosingsBalance(fin.stack, 0);
    assert fin.stack[0..] == fin.stack && fin.stack[..0] == [];
    BalanceConcat(fin.out[1..], Closings(fin.stack), []);
  }

  /** Whatever the tokens, everything after the first token of the repaired
      list, up to the root's closing tag, is well nested and closes every
      name it opens. When the root matched and the first token opens it,
      the whole list is. (A first token the root does not match is never
      closed.) */
  lemma RepairNested(tokens: seq<string>)
    requires Repaired(tokens).Ok?
    requires forall i :: 1 <= i < |tokens| ==> Clean(tokens[i])
    ensures var out := Repaired(tokens).value;
      var tail := if RootMatched(tokens) then 1 else 0;
      |out| >= 1 + tail && out[0] == tokens[0] && Balance(out[1..|out| - tail], []) == Some([])
    ensures var out := Repaired(tokens).value;
      RootMatched(tokens) && Classify(tokens[0]).Some? && Classify(tokens[0]).value.Opening? ==>
        Balance(out, []) == Some([])
  {
    BodyNested(tokens);
    var fin := RepairFrom(Repair([tokens[0]], []), Body(tokens)).value;
    var inner := fin.out[1..] + Closings(fin.stack);
    var out := Repaired(tokens).value;
    Regroup([tokens[0]], fin.out[1..], Closings(fin.stack));
    if RootMatched(tokens) {
      var root := Slice(tokens[0], 1, -1);
      assert out == [tokens[0]] + inner + [CloseTag(root)];
      assert out[1..|out| - 1] == inner;
      if Classify(tokens[0]).Some? && Classify(tokens[0]).value.Opening? {
        RootNested(tokens[0], inner);
      }
    } else {
      assert out == [tokens[0]] + inner;
      assert out[1..|out|] == inner;
    }
  }

  /** An opening tag, a well-nested list and the tag's closing tag are well nested. */
  lemma RootNested(first: string, inner: seq<string>)
    requires Classify(first).Some? && Classify(first).value.Opening? && Balance(inner, []) == Some([])
    ensures Balance([first] + inner + [CloseTag(Slice(first, 1, -1))], []) == Some([])
  {
    var root := Slice(first, 1, -1);
    ReadBack(root);
    assert [first][1..] == [] && [] + [root] == [root];
    assert Balance([first], []) == Some([root]);
    BalanceConcat([first], inner, []);
    BalanceShift(inner, [], [root]);
    assert [root] + [] == [root];
    BalanceConcat([first] + inner, [CloseTag(root)], []);
    assert [CloseTag(root)][1..] == [];
    assert [root][..0] == [];
  }

  /** Names open below the stack a list starts from do not affect it. */
  lemma {:induction false} BalanceShift(toks: seq<string>, stack: seq<string>, below: seq<string>)
    requires Balance(toks, stack).Some?
    ensures Balance(toks, below + stack) == Some(below + Balance(toks, stack).value)
    decreases |toks|
  {
    if toks != [] {
      match Classify(toks[0])
      case Some(Content) => BalanceShift(toks[1..], stack, below);
      case Some(Opening(name)) =>
        assert below + (stack + [name]) == (below + stack) + [name];
        BalanceShift(toks[1..], stack + [name], below);
      case Some(Closing(name)) =>
        assert (below + stack)[..|below + stack| - 1] == below + stack[..|stack| - 1];
        BalanceShift(toks[1..], stack[..|stack| - 1], below);
    }
  }

  /** Output only grows: the loop keeps what it has written. */
  lemma {:induction false} RunKeeps(st: Repair, toks: seq<string>)
    requires RepairFrom(st, toks).Ok?
    ensures |st.out| <= |RepairFrom(st, toks).value.out|
    ensures RepairFrom(st, toks).value.out[..|st.out|] == st.out
    decreases |toks|
  {
    if toks != [] {
      var next := RepairStep(st, toks[0]).value;
      RunKeeps(next, toks[1..]);
      assert next.out[..|st.out|] == st.out;
    }
  }

  /** Tokens the loop reads back unchanged: readable, and a closing tag
      written exactly as `</name>`. */
  predicate Tidy(t: string) {
    match Classify(t)
    case None => false
    case Some(Closing(name)) => t == CloseTag(name)
    case Some(_) => true
  }

  /** Over well-nested tidy tokens the loop copies every token through. */
  lemma {:induction false} NestedRun(st: Repair, toks: seq<string>)
    requires forall i :: 0 <= i < |toks| ==> Tidy(toks[i])
    requires Balance(toks, st.stack).Some?
    ensures RepairFrom(st, toks) == Ok(Repair(st.out + toks, Balance(toks, st.stack).value))
    decreases |toks|
  {
    if toks != [] {
      var t := toks[0];
      var after := TidyStep(st.stack, t);
      var next := Repair(st.out + [t], after);
      assert RepairStep(st, t) == Ok(next);
      assert Balance(toks, st.stack) == Balance(toks[1..], after);
      NestedRun(next, toks[1..]);
      assert st.out + [t] + toks[1..] == st.out + toks;
    } else {
      assert st.out + toks == st.out;
    }
  }

  /** A tidy token that is well nested over the stack is copied through,
      and the stack changes as the reading says. */
  lemma TidyStep(stack: seq<string>, t: string) returns (after: seq<string>)
    requires Tidy(t)
    requires Balance([t], stack).Some?
    ensures Emit(stack, t, Classify(t).value) == ([t], after)
    ensures Balance([t], stack) == Some(after)
  {
    assert [t][1..] == [];
    match Classify(t).value
    case Content =>
      after := stack;
    case Opening(name) =>
      after := stack + [name];
    case Closing(name) =>
      assert t == CloseTag(name);
      assert stack != [] && stack[|stack| - 1] == name;
      assert LastIndex(stack, name) == |stack| - 1;
      assert stack[|stack|..] == [];
      assert Closings(stack[|stack|..]) + [CloseTag(name)] == [t];
      after := stack[..|stack| - 1];
  }

  /** A well-nested list of tidy tokens, under a root opening tag and its
      closing tag, comes out unchanged: the join is the concatenation of
      the tokens. */
  lemma NestedUnchanged(tokens: seq<string>)
    requires |tokens| >= 2
    requires Classify(tokens[0]).Some? && Classify(tokens[0]).value.Opening?
    requires tokens[|tokens| - 1] == CloseTag(Slice(tokens[0], 1, -1))
    requires forall i :: 1 <= i < |tokens| - 1 ==> Tidy(tokens[i])
    requires Balance(tokens[1..|tokens| - 1], []) == Some([])
    ensures Repaired(tokens) == Ok(tokens)
    ensures Corrected(tokens) == Ok(Flatten(tokens))
  {
    NestedBody(tokens);
    var front := tokens[..|tokens| - 1];
    var st := Repair(front, []);
    assert Closings(st.stack) == [];
    assert st.out + Closings(st.stack) == front;
    assert Repaired(tokens) == Ok(front + [CloseTag(Slice(tokens[0], 1, -1))]);
    assert front + [tokens[|tokens| - 1]] == tokens;
  }

  /** The loop copies the tokens between the root's tags through and
      closes everything it opened. */
  lemma NestedBody(tokens: seq<string>)
    requires |tokens| >= 2
    requires tokens[|tokens| - 1] == CloseTag(Slice(tokens[0], 1, -1))
    requires forall i :: 1 <= i < |tokens| - 1 ==> Tidy(tokens[i])
    requires Balance(tokens[1..|tokens| - 1], []) == Some([])
    ensures RootMatched(tokens)
    ensures RepairFrom(Repair([tokens[0]], []), Body(tokens)) == Ok(Repair(tokens[..|tokens| - 1], []))
  {
    var inner := tokens[1..|tokens| - 1];
    RootBody(tokens);
    forall i | 0 <= i < |inner|
      ensures Tidy(inner[i])
    {
      assert inner[i] == tokens[i + 1];
    }
    NestedRun(Repair([tokens[0]], []), inner);
    assert [tokens[0]] + inner == tokens[..|tokens| - 1];
  }

  /** The root matches when the last token is its closing tag, and then
      the loop visits the tokens in between. */
  lemma RootBody(tokens: seq<string>)
    requires |tokens| >= 2
    requires tokens[|tokens| - 1] == CloseTag(Slice(tokens[0], 1, -1))
    ensures RootMatched(tokens) && Body(tokens) == tokens[1..|tokens| - 1]
  {
    ReadBack(Slice(tokens[0], 1, -1));
    assert Slice(tokens, 1, -1) == tokens[1..|tokens| - 1];
  }
}
