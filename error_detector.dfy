/** The checker of `xml_error_detector.py`: one pass over the characters
    that pulls out opening and closing tag names, keeps a stack of open
    names and a stack of closing names, and writes an error line for every
    mismatch, with the number of the line reached so far.

    The model separates what the pass reads from what it does: `LexFrom` lists
    the newlines and tags the outer loop meets, and `RunFrom` plays the
    stack logic over that list. `Detect` is the single loop of the source,
    proved equal to the composition. */
module ErrorDetector {
  import opened Common

  /* ---------------------------------------------------------------- */
  /* What the outer loop meets                                         */
  /* ---------------------------------------------------------------- */

  datatype Event = Newline | OpenTag(name: string) | CloseTag(name: string)

  /** Reading past the end: a `<` as the last character (`xml[i+1]`), or a
      tag that no `>` ends. */
  datatype ScanError = IndexError

  /** The first `>` at or after `k`, if there is one. */
  function TagEnd(xml: string, k: nat): (r: Option<nat>)
    ensures r.Some? ==> k <= r.value < |xml| && xml[r.value] == '>'
    ensures r.Some? ==> forall j :: k <= j < r.value ==> xml[j] != '>'
    ensures r.None? ==> forall j :: k <= j < |xml| ==> xml[j] != '>'
    decreases |xml| - k
  {
    if k >= |xml| then None
    else if xml[k] == '>' then Some(k)
    else TagEnd(xml, k + 1)
  }

  function Prepend(e: Event, r: Result<seq<Event>, ScanError>): Result<seq<Event>, ScanError> {
    match r
    case Err(x) => Err(x)
    case Ok(evs) => Ok([e] + evs)
  }

  /** What the outer loop meets from position `i` on: a newline outside any
      tag, an opening tag `<name…>` (its text with `<` and `>` removed), or
      a closing tag `</name>` (its text with `<`, `/` and `>` removed). A
      tag's characters, newlines included, are consumed by the inner scan,
      so there are never more events than characters left. */
  function LexFrom(xml: string, i: nat): (r: Result<seq<Event>, ScanError>)
    ensures r.Ok? && i <= |xml| ==> |r.value| <= |xml| - i
    decreases |xml| - i
  {
    if i >= |xml| then Ok([])
    else if xml[i] == '\n' then Prepend(Newline, LexFrom(xml, i + 1))
    else if xml[i] != '<' then LexFrom(xml, i + 1)
    else if i + 1 >= |xml| then Err(IndexError)
    else if xml[i + 1] != '/' then
      match TagEnd(xml, i + 1)
      case None => Err(IndexError)
      case Some(j) => Prepend(OpenTag(Without(xml[i + 1..j], {'<', '>'})), LexFrom(xml, j + 1))
    else
      match TagEnd(xml, i + 2)
      case None => Err(IndexError)
      case Some(j) => Prepend(CloseTag(Without(xml[i + 2..j], {'<', '/', '>'})), LexFrom(xml, j + 1))
  }

  /* ---------------------------------------------------------------- */
  /* The stack logic                                                   */
  /* ---------------------------------------------------------------- */

  /** The variables of the pass besides the position: the open and closed
      stacks, whether the last tag was a closing one, the error text and
      the line number. */
  datatype Checker = Checker(open: seq<string>, closed: seq<string>, closing: bool, report: string, line: nat)

  const Start := Checker([], [], false, "", 1)

  function Missing(name: string, line: nat): string {
    "Missing closed tag for opening tag: " + name + " at line " + NatToString(line) + "\n"
  }

  function Unmatched(top: string, name: string, line: nat): string {
    "Unmatched tag for opening tag : " + top + "-> " + name + "\n"
      + " or missing an opening tag for " + name + " at line " + NatToString(line) + "\n"
  }

  function NotOpened(name: string, line: nat): string {
    name + " tag is not opened at line " + NatToString(line) + "\n"
  }

  function NotClosed(name: string, line: nat): string {
    name + " tag is not closed at line " + NatToString(line) + "\n"
  }

  /** The "Missing closed tag" lines for `names`, first name first. */
  function MissingAll(names: seq<string>, line: nat): string
    decreases |names|
  {
    if names == [] then "" else MissingAll(names[..|names| - 1], line) + Missing(names[|names| - 1], line)
  }

  /** The lines for the names popped off `stack` until it is empty: the top first. */
  function NotClosedAll(stack: seq<string>, line: nat): string
    decreases |stack|
  {
    if stack == [] then "" else NotClosed(stack[|stack| - 1], line) + NotClosedAll(stack[..|stack| - 1], line)
  }

  function NotOpenedAll(stack: seq<string>, line: nat): string
    decreases |stack|
  {
    if stack == [] then "" else NotOpened(stack[|stack| - 1], line) + NotOpenedAll(stack[..|stack| - 1], line)
  }

  /** The check after every character (`if closing and open`): a closing
      name equal to the top opening pops both; one deeper in the open stack
      reports and pops the openings above it and pops the match; one absent
      from it is reported and dropped. In the last two cases the next
      closing name left on the closed stack, if any, is then reported as not
      opened and dropped too. Afterwards no check is pending, the stacks
      have not grown, and the error text has only been added to. */
  function Resolve(st: Checker): (r: Checker)
    ensures r.closing ==> r.open == []
    ensures |r.open| <= |st.open| && |r.closed| <= |st.closed|
    ensures r.line == st.line
  {
    if !(st.closing && st.open != []) then st
    else if st.closed != [] && st.closed[|st.closed| - 1] != st.open[|st.open| - 1] then
      var (open, closed, report) := Search(st.open, st.closed, st.report, st.line);
      if closed != [] then
        Checker(open, closed[..|closed| - 1], false, report + NotOpened(closed[|closed| - 1], st.line), st.line)
      else
        Checker(open, closed, false, report, st.line)
    else
      var closed := if st.closed != [] then st.closed[..|st.closed| - 1] else st.closed;
      Checker(st.open[..|st.open| - 1], closed, false, st.report, st.line)
  }

  /** The search for the last closing name in the open stack, as the open
      stack, the closed stack and the error text it leaves. The open stack
      is cut below the name exactly when the name is in it, the name is
      popped off the closed stack, and the error text is only added to. */
  function Search(open: seq<string>, closed: seq<string>, report: string, line: nat): (r: (seq<string>, seq<string>, string))
    requires open != [] && closed != []
    ensures |r.0| <= |open| && r.0 == open[..|r.0|]
    ensures |r.0| < |open| <==> closed[|closed| - 1] in open
    ensures r.1 == closed[..|closed| - 1]
  {
    var name := closed[|closed| - 1];
    if name in open then
      var j := LastIndex(open, name);
      (open[..j], closed[..|closed| - 1], report + MissingAll(open[j + 1..], line))
    else
      (open, closed[..|closed| - 1], report + Unmatched(open[|open| - 1], name, line))
  }

  /** One event, then the check: only a newline advances the line, the
      error text is only added to, and no check is left pending. */
  function Step(st: Checker, e: Event): (r: Checker)
    ensures r.line == st.line + if e == Newline then 1 else 0
    ensures r.closing ==> r.open == []
  {
    match e
    case Newline => Resolve(st.(line := st.line + 1))
    case OpenTag(name) => Resolve(st.(open := st.open + [name], closing := false))
    case CloseTag(name) => Resolve(st.(closed := st.closed + [name], closing := true))
  }

  function RunFrom(st: Checker, evs: seq<Event>): Checker
    decreases |evs|
  {
    if evs == [] then st else RunFrom(Step(st, evs[0]), evs[1..])
  }

  /** The text after the loop: the error text, then every name left open
      (innermost first), then every closing name left over (latest first). */
  function Leftovers(st: Checker): string {
    st.report + NotClosedAll(st.open, st.line) + NotOpenedAll(st.closed, st.line)
  }

  const Correct := "correct XML file "

  function Verdict(st: Checker): string {
    var text := Leftovers(st);
    if text != "" then text else Correct
  }

  function Continue(st: Checker, r: Result<seq<Event>, ScanError>): Result<string, ScanError> {
    match r
    case Err(x) => Err(x)
    case Ok(evs) => Ok(Verdict(RunFrom(st, evs)))
  }

  /** `XML_error_detector(xml)`: the verdict after all events, or the
      IndexError the scan runs into. Text without a tag is correct. */
  function Detection(xml: string): (r: Result<string, ScanError>)
    ensures (forall k :: 0 <= k < |xml| ==> xml[k] != '<') ==> r == Ok(Correct)
  {
    assert (forall k :: 0 <= k < |xml| ==> xml[k] != '<') ==> Continue(Start, LexFrom(xml, 0)) == Ok(Correct) by {
      if forall k :: 0 <= k < |xml| ==> xml[k] != '<' {
        LexPlain(xml, 0);
        NewlinesOnly(Start, LexFrom(xml, 0).value);
      }
    }
    Continue(Start, LexFrom(xml, 0))
  }

  /** Text without `<` holds nothing but newlines and cannot fail. */
  lemma {:induction false} LexPlain(xml: string, i: nat)
    requires forall k :: i <= k < |xml| ==> xml[k] != '<'
    ensures LexFrom(xml, i).Ok? && forall n :: 0 <= n < |LexFrom(xml, i).value| ==> LexFrom(xml, i).value[n] == Newline
    decreases |xml| - i
  {
    if i < |xml| {
      LexPlain(xml, i + 1);
    }
  }

  /** Newlines alone leave empty stacks and an empty error text as they are. */
  lemma {:induction false} NewlinesOnly(st: Checker, evs: seq<Event>)
    requires st.open == [] && st.closed == [] && st.report == ""
    requires forall n :: 0 <= n < |evs| ==> evs[n] == Newline
    ensures var fin := RunFrom(st, evs); fin.open == [] && fin.closed == [] && fin.report == ""
    decreases |evs|
  {
    if evs != [] {
      NewlinesOnly(Step(st, evs[0]), evs[1..]);
    }
  }

  /* ---------------------------------------------------------------- */
  /* The pass                                                          */
  /* ---------------------------------------------------------------- */

  /** No check is pending: the last tag was an opening one, or nothing is open. */
  predicate Quiet(st: Checker) {
    !(st.closing && st.open != [])
  }

  lemma ContinuePrepend(st: Checker, e: Event, r: Result<seq<Event>, ScanError>)
    ensures Continue(st, Prepend(e, r)) == Continue(Step(st, e), r)
  {
    if r.Ok? {
      assert ([e] + r.value)[1..] == r.value;
    }
  }

  /** `e` is read for `e + [x]`, reversed: `e[t]` is the `t`-th name from the end of `s`. */
  ghost predicate Reversed(e: seq<string>, s: seq<string>) {
    |e| == |s| && forall t :: 0 <= t < |e| ==> e[t] == s[|s| - 1 - t]
  }

  /** The inner scan of a tag: the characters from `start` up to the next `>`,
      and where it is; `|xml|` when the scan runs off the end. */
  method ScanTag(xml: string, start: nat) returns (tag: string, j: nat)
    requires start <= |xml|
    ensures j <= |xml|
    ensures j < |xml| ==> TagEnd(xml, start) == Some(j) && tag == xml[start..j]
    ensures j == |xml| ==> TagEnd(xml, start) == None
  {
    j := start;
    tag := "";
    while j < |xml| && xml[j] != '>'
      invariant start <= j <= |xml|
      invariant tag == xml[start..j]
      invariant forall k :: start <= k < j ==> xml[k] != '>'
    {
      tag := tag + [xml[j]];
      j := j + 1;
    }
  }

  /** For-else of the search: does `name` occur in `stack`? */
  method Occurs(stack: seq<string>, name: string) returns (b: bool)
    ensures b <==> name in stack
  {
    b := false;
    for t := 0 to |stack|
      invariant name !in stack[..t]
    {
      if stack[t] == name {
        return true;
      }
      assert stack[..t + 1] == stack[..t] + [stack[t]];
    }
    assert stack[..|stack|] == stack;
  }

  /** `while errors: error_string += f"Missing closed tag …"`: pops the
      collected names, so the one collected last is reported first. */
  method Flush(report: string, errors: seq<string>, ghost names: seq<string>, line: nat) returns (report': string)
    requires Reversed(errors, names)
    ensures report' == report + MissingAll(names, line)
  {
    var rest := errors;
    report' := report;
    while rest != []
      invariant report' + Popped(rest, line) == report + Popped(errors, line)
      decreases |rest|
    {
      report' := report' + Missing(rest[|rest| - 1], line);
      rest := rest[..|rest| - 1];
    }
    PoppedReversed(errors, names, line);
  }

  /** The lines written while popping `errors` until it is empty. */
  function Popped(errors: seq<string>, line: nat): string
    decreases |errors|
  {
    if errors == [] then "" else Missing(errors[|errors| - 1], line) + Popped(errors[..|errors| - 1], line)
  }

  /** Popping a stack reads it backwards: the lines come out in the order
      of the names it holds reversed. */
  lemma {:induction false} PoppedReversed(errors: seq<string>, names: seq<string>, line: nat)
    requires Reversed(errors, names)
    ensures Popped(errors, line) == MissingAll(names, line)
    decreases |errors|
  {
    if errors != [] {
      var n := |errors| - 1;
      assert Reversed(errors[..n], names[1..]);
      PoppedReversed(errors[..n], names[1..], line);
      MissingAllFront(names, line);
    }
  }

  /** `MissingAll` seen from the front. */
  lemma {:induction false} MissingAllFront(names: seq<string>, line: nat)
    requires names != []
    ensures MissingAll(names, line) == Missing(names[0], line) + MissingAll(names[1..], line)
    decreases |names|
  {
    if |names| > 1 {
      var n := |names| - 1;
      MissingAllFront(names[..n], line);
      assert names[..n][1..] == names[1..][..n - 1];
      assert names[..n][0] == names[0];
    } else {
      assert names[..0] == [] && names[1..] == [];
    }
  }

  lemma ReversedPush(e: seq<string>, s: seq<string>, k: nat)
    requires k < |s| && Reversed(e, s[k + 1..])
    ensures Reversed(e + [s[k]], s[k..])
  {
  }

  /** The search loop (`while open and exsit`) with its for-else. */
  method SearchLoop(open0: seq<string>, closed0: seq<string>, report0: string, line: nat)
      returns (open: seq<string>, closed: seq<string>, report: string)
    requires open0 != [] && closed0 != [] && closed0[|closed0| - 1] != open0[|open0| - 1]
    ensures (open, closed, report) == Search(open0, closed0, report0, line)
  {
    open, closed, report := open0, closed0, report0;
    var c := closed[|closed| - 1];
    ghost var j := if c in open0 then LastIndex(open0, c) else 0;
    var exsit := true;
    var errors: seq<string> := [];
    while open != [] && exsit
      invariant c in open0 ==> (exsit && j + 1 < |open| <= |open0| && open == open0[..|open|]
        && Reversed(errors, open0[|open|..]) && closed == closed0 && report == report0)
      invariant c !in open0 ==> open == open0
      invariant c !in open0 && exsit ==> closed == closed0 && report == report0
      invariant c !in open0 && !exsit ==>
        closed == closed0[..|closed0| - 1] && report == report0 + Unmatched(open0[|open0| - 1], c, line)
      decreases |open| + if exsit then 1 else 0
    {
      exsit := Occurs(open, c);
      if exsit {
        assert c in open0;
        ReversedPush(errors, open0, |open| - 1);
        errors := errors + [open[|open| - 1]];
        open := open[..|open| - 1];
        if open != [] && closed != [] && open[|open| - 1] == closed[|closed| - 1] {
          assert |open| - 1 == j && open[..j] == open0[..j];
          closed := closed[..|closed| - 1];
          open := open[..|open| - 1];
          report := Flush(report, errors, open0[j + 1..], line);
          return;
        }
      } else {
        var unmatched := closed[|closed| - 1];
        assert unmatched == c;
        closed := closed[..|closed| - 1];
        report := report + Unmatched(open[|open| - 1], unmatched, line);
      }
    }
    // Only the second way out of the search reaches here, and it leaves
    // `errors` empty, so the loop that pushes it back onto `open` has
    // nothing to do.
  }

  /** The check of a pending closing name (`if closing and open`). */
  method Settle(open0: seq<string>, closed0: seq<string>, report0: string, line: nat)
      returns (open: seq<string>, closed: seq<string>, report: string)
    requires open0 != []
    ensures Checker(open, closed, false, report, line) == Resolve(Checker(open0, closed0, true, report0, line))
  {
    if closed0 != [] && closed0[|closed0| - 1] != open0[|open0| - 1] {
      open, closed, report := SearchLoop(open0, closed0, report0, line);
      if closed != [] {
        report := report + NotOpened(closed[|closed| - 1], line);
        closed := closed[..|closed| - 1];
      }
    } else {
      open, closed, report := open0[..|open0| - 1], closed0, report0;
      if closed != [] {
        closed := closed[..|closed| - 1];
      }
    }
  }

  /** Lines 99 to 108: the leftovers are reported, then the verdict. */
  method Finish(open0: seq<string>, closed0: seq<string>, report0: string, line: nat) returns (text: string)
    ensures forall closing :: text == Verdict(Checker(open0, closed0, closing, report0, line))
  {
    var report := ReportOpen(open0, report0, line);
    report := ReportClosed(closed0, report, line);
    text := if report != "" then report else Correct;
  }

  /** `while open:` after the pass: one line per name left open, the top first. */
  method ReportOpen(open0: seq<string>, report0: string, line: nat) returns (report: string)
    ensures report == report0 + NotClosedAll(open0, line)
  {
    var open := open0;
    report := report0;
    while open != []
      invariant report0 + NotClosedAll(open0, line) == report + NotClosedAll(open, line)
      decreases |open|
    {
      report := report + NotClosed(open[|open| - 1], line);
      open := open[..|open| - 1];
    }
  }

  /** `while closed:` after the pass: one line per closing name left over, the latest first. */
  method ReportClosed(closed0: seq<string>, report0: string, line: nat) returns (report: string)
    ensures report == report0 + NotOpenedAll(closed0, line)
  {
    var closed := closed0;
    report := report0;
    while closed != []
      invariant report0 + NotOpenedAll(closed0, line) == report + NotOpenedAll(closed, line)
      decreases |closed|
    {
      report := report + NotOpened(closed[|closed| - 1], line);
      closed := closed[..|closed| - 1];
    }
  }

  /** Lines 28 to 50: the tag that starts at `i`, read up to its `>` at
      `j`, and whether it is a closing one; `ok` is false where the source
      indexes past the end. */
  method ReadTag(xml: string, i: nat) returns (ok: bool, isClose: bool, name: string, j: nat)
    requires i < |xml| && xml[i] == '<'
    ensures ok ==> i < j < |xml|
    ensures ok ==> LexFrom(xml, i) == Prepend(if isClose then CloseTag(name) else OpenTag(name), LexFrom(xml, j + 1))
    ensures !ok ==> LexFrom(xml, i) == Err(IndexError)
  {
    if i + 1 >= |xml| {
      return false, false, "", i;
    }
    var tag;
    if xml[i + 1] != "/"[0] {
      tag, j := ScanTag(xml, i + 1);
      isClose := false;
      name := Without(tag, {'<', '>'});
    } else {
      tag, j := ScanTag(xml, i + 2);
      isClose := true;
      name := Without(tag, {'<', '/', '>'});
    }
    ok := j < |xml|;
  }

  /** One pass of the loop of `XML_error_detector` at position `i`: the
      line count, the tag that starts there, then the check of a pending
      closing name; `ok` is false where the source indexes past the end. */
  method Visit(xml: string, i: nat, open0: seq<string>, closed0: seq<string>, closing0: bool, report0: string, line0: nat)
      returns (ok: bool, next: nat, open: seq<string>, closed: seq<string>, closing: bool, report: string, line: nat)
    requires i < |xml| && Quiet(Checker(open0, closed0, closing0, report0, line0))
    ensures ok ==> i < next <= |xml| && Quiet(Checker(open, closed, closing, report, line))
    ensures ok ==>
      Continue(Checker(open0, closed0, closing0, report0, line0), LexFrom(xml, i))
      == Continue(Checker(open, closed, closing, report, line), LexFrom(xml, next))
    ensures !ok ==> LexFrom(xml, i) == Err(IndexError)
  {
    open, closed, closing, report, line := open0, closed0, closing0, report0, line0;
    ghost var st := Checker(open, closed, closing, report, line);
    // The state the remaining events are run from once this character is done.
    ghost var after := st;
    next := i;
    if xml[i] == '\n' {
      assert LexFrom(xml, i) == Prepend(Newline, LexFrom(xml, i + 1));
      ContinuePrepend(st, Newline, LexFrom(xml, i + 1));
      line := line + 1;
      after := Step(st, Newline);
    } else if xml[i] != '<' {
      assert LexFrom(xml, i) == LexFrom(xml, i + 1);
    }
    if xml[i] == '<' {
      var isClose, name, j;
      ok, isClose, name, j := ReadTag(xml, i);
      if !ok {
        return;
      }
      if !isClose {
        ContinuePrepend(st, OpenTag(name), LexFrom(xml, j + 1));
        closing := false;
        open := open + [name];
        after := Step(st, OpenTag(name));
      } else {
        ContinuePrepend(st, CloseTag(name), LexFrom(xml, j + 1));
        closing := true;
        closed := closed + [name];
        after := Step(st, CloseTag(name));
      }
      next := j;
    }
    assert after == Resolve(Checker(open, closed, closing, report, line));
    assert Continue(st, LexFrom(xml, i)) == Continue(after, LexFrom(xml, next + 1));
    if closing && open != [] {
      open, closed, report := Settle(open, closed, report, line);
      closing := false;
    }
    assert Checker(open, closed, closing, report, line) == after;
    next := next + 1;
    ok := true;
  }

  /** `XML_error_detector`: one loop over the characters. */
  method Detect(xml: string) returns (r: Result<string, ScanError>)
    ensures r == Detection(xml)
  {
    var i: nat := 0;
    var open: seq<string> := [];
    var closed: seq<string> := [];
    var closing := false;
    var report := "";
    var line: nat := 1;
    while i < |xml|
      invariant i <= |xml|
      invariant Quiet(Checker(open, closed, closing, report, line))
      invariant Detection(xml) == Continue(Checker(open, closed, closing, report, line), LexFrom(xml, i))
      decreases |xml| - i
    {
      var ok;
      ok, i, open, closed, closing, report, line := Visit(xml, i, open, closed, closing, report, line);
      if !ok {
        return Err(IndexError);
      }
    }
    var text := Finish(open, closed, report, line);
    r := Ok(text);
  }

  /* ---------------------------------------------------------------- */
  /* Properties                                                        */
  /* ---------------------------------------------------------------- */

  /** The check does nothing when none is pending, and none is pending after it. */
  lemma ResolveQuiet(st: Checker)
    ensures Quiet(st) ==> Resolve(st) == st
    ensures Quiet(Resolve(st))
  {
  }

  /** A closing name equal to the top opening name pops both stacks and
      adds no error text. */
  lemma TopMatch(st: Checker, name: string)
    requires Quiet(st) && st.open != [] && st.open[|st.open| - 1] == name
    ensures Step(st, CloseTag(name)) == st.(open := st.open[..|st.open| - 1], closing := false)
  {
    assert (st.closed + [name])[..|st.closed|] == st.closed;
  }

  /** A closing name that nothing open carries is reported as unmatched
      against the top opening name and dropped; the open stack is left as
      it was. The closing name below it, if any, is then reported as not
      opened and dropped. */
  lemma Unopened(st: Checker, name: string)
    requires Quiet(st) && st.open != [] && name !in st.open
    ensures var r := Step(st, CloseTag(name));
      && r.open == st.open
      && r.closed == (if st.closed == [] then [] else st.closed[..|st.closed| - 1])
      && r.report == st.report + Unmatched(st.open[|st.open| - 1], name, st.line)
           + (if st.closed == [] then "" else NotOpened(st.closed[|st.closed| - 1], st.line))
  {
    assert (st.closed + [name])[..|st.closed|] == st.closed;
  }

  /** A closing name that sits deeper in the open stack reports every
      opening name above its nearest occurrence, outermost first, and pops
      them together with the match. */
  lemma DeepMatch(st: Checker, name: string, j: nat)
    requires Quiet(st) && j + 1 < |st.open| && st.open[j] == name
    requires forall t :: j < t < |st.open| ==> st.open[t] != name
    ensures var r := Step(st, CloseTag(name));
      && r.open == st.open[..j]
      && r.closed == (if st.closed == [] then [] else st.closed[..|st.closed| - 1])
      && r.report == st.report + MissingAll(st.open[j + 1..], st.line)
           + (if st.closed == [] then "" else NotOpened(st.closed[|st.closed| - 1], st.line))
  {
    assert name in st.open;
    assert LastIndex(st.open, name) == j;
    assert (st.closed + [name])[..|st.closed|] == st.closed;
  }

  /** Error text lines: every message ends with a newline. */
  predicate Lines(s: string) {
    s == "" || s[|s| - 1] == '\n'
  }

  lemma LinesJoin(a: string, b: string)
    requires Lines(a) && Lines(b)
    ensures Lines(a + b)
  {
  }

  lemma {:induction false} MissingAllLines(names: seq<string>, line: nat)
    ensures Lines(MissingAll(names, line))
    decreases |names|
  {
    if names != [] {
      MissingAllLines(names[..|names| - 1], line);
    }
  }

  lemma {:induction false} NotClosedAllLines(stack: seq<string>, line: nat)
    ensures Lines(NotClosedAll(stack, line))
    ensures NotClosedAll(stack, line) == "" <==> stack == []
    decreases |stack|
  {
    if stack != [] {
      NotClosedAllLines(stack[..|stack| - 1], line);
      LinesJoin(NotClosed(stack[|stack| - 1], line), NotClosedAll(stack[..|stack| - 1], line));
    }
  }

  lemma {:induction false} NotOpenedAllLines(stack: seq<string>, line: nat)
    ensures Lines(NotOpenedAll(stack, line))
    ensures NotOpenedAll(stack, line) == "" <==> stack == []
    decreases |stack|
  {
    if stack != [] {
      NotOpenedAllLines(stack[..|stack| - 1], line);
      LinesJoin(NotOpened(stack[|stack| - 1], line), NotOpenedAll(stack[..|stack| - 1], line));
    }
  }

  lemma SearchReport(open: seq<string>, closed: seq<string>, report: string, line: nat)
    requires open != [] && closed != [] && closed[|closed| - 1] != open[|open| - 1] && Lines(report)
    ensures var r := Search(open, closed, report, line).2;
      |r| > |report| && r[..|report|] == report && Lines(r)
  {
    var name := closed[|closed| - 1];
    if name in open {
      var j := LastIndex(open, name);
      var m := MissingAll(open[j + 1..], line);
      MissingAllLines(open[j + 1..], line);
      assert m != "";
      LinesJoin(report, m);
    } else {
      var u := Unmatched(open[|open| - 1], name, line);
      assert u[|u| - 1] == '\n';
      LinesJoin(report, u);
    }
  }

  /** The check only appends error lines. */
  lemma ResolveReport(st: Checker)
    requires Lines(st.report)
    ensures st.report <= Resolve(st).report && Lines(Resolve(st).report)
  {
    if st.closing && st.open != [] && st.closed != [] && st.closed[|st.closed| - 1] != st.open[|st.open| - 1] {
      SearchReport(st.open, st.closed, st.report, st.line);
      var (open, closed, report) := Search(st.open, st.closed, st.report, st.line);
      if closed != [] {
        LinesJoin(report, NotOpened(closed[|closed| - 1], st.line));
      }
    }
  }

  /** An event only appends error lines, and leaves no check pending. */
  lemma StepReport(st: Checker, e: Event)
    requires Lines(st.report)
    ensures st.report <= Step(st, e).report && Lines(Step(st, e).report)
    ensures Quiet(Step(st, e))
  {
    match e
    case Newline => ResolveReport(st.(line := st.line + 1));
    case OpenTag(name) => ResolveReport(st.(open := st.open + [name], closing := false));
    case CloseTag(name) => ResolveReport(st.(closed := st.closed + [name], closing := true));
  }

  /** The final text is the error text followed by the leftovers, and it is
      empty only when there is no error text and both stacks are empty. */
  lemma LeftoversEmpty(st: Checker)
    requires Lines(st.report)
    ensures Lines(Leftovers(st))
    ensures Leftovers(st) == "" <==> st.report == "" && st.open == [] && st.closed == []
  {
    NotClosedAllLines(st.open, st.line);
    NotOpenedAllLines(st.closed, st.line);
    LinesJoin(st.report, NotClosedAll(st.open, st.line));
    LinesJoin(st.report + NotClosedAll(st.open, st.line), NotOpenedAll(st.closed, st.line));
  }

  /** The verdict is the success text exactly when the final text is empty,
      and the final text otherwise. */
  lemma VerdictCorrect(st: Checker)
    requires Lines(st.report)
    ensures Verdict(st) == Correct <==> Leftovers(st) == ""
    ensures Leftovers(st) != "" ==> Verdict(st) == Leftovers(st)
  {
    LeftoversEmpty(st);
  }

  /** The stack discipline of well-nested tags: every closing name is the
      name on top, and the result is the stack left open. */
  function Balance(evs: seq<Event>, stack: seq<string>): Option<seq<string>>
    decreases |evs|
  {
    if evs == [] then Some(stack)
    else match evs[0]
      case Newline => Balance(evs[1..], stack)
      case OpenTag(name) => Balance(evs[1..], stack + [name])
      case CloseTag(name) =>
        if stack != [] && stack[|stack| - 1] == name then Balance(evs[1..], stack[..|stack| - 1]) else None
  }

  /** Without new error text an event never shrinks the closed stack. */
  lemma StepClosed(st: Checker, e: Event)
    requires Quiet(st) && Lines(st.report) && Step(st, e).report == st.report
    ensures |Step(st, e).closed| >= |st.closed|
  {
    if e.CloseTag? {
      var s := st.(closed := st.closed + [e.name], closing := true);
      if s.open != [] && s.closed[|s.closed| - 1] != s.open[|s.open| - 1] {
        SearchReport(s.open, s.closed, s.report, s.line);
      }
    }
  }

  /** Once there is error text or a closing name left over, the final text
      is not empty, whatever follows. */
  lemma {:induction false} StaysWrong(st: Checker, evs: seq<Event>)
    requires Quiet(st) && Lines(st.report) && (st.report != "" || st.closed != [])
    ensures Leftovers(RunFrom(st, evs)) != ""
    decreases |evs|
  {
    if evs == [] {
      LeftoversEmpty(st);
    } else {
      var next := Step(st, evs[0]);
      StepReport(st, evs[0]);
      if next.report == st.report {
        StepClosed(st, evs[0]);
      }
      StaysWrong(next, evs[1..]);
    }
  }

  /** From a state with no error text and nothing left over, the final
      text is empty exactly when the remaining events are well nested over
      the open stack and close all of it. */
  lemma {:induction false} NestedRun(st: Checker, evs: seq<Event>)
    requires Quiet(st) && st.report == "" && st.closed == []
    ensures Leftovers(RunFrom(st, evs)) == "" <==> Balance(evs, st.open) == Some([])
    decreases |evs|
  {
    if evs == [] {
      LeftoversEmpty(st);
    } else {
      var e := evs[0];
      match e
      case Newline =>
        NestedRun(st.(line := st.line + 1), evs[1..]);
      case OpenTag(name) =>
        NestedRun(st.(open := st.open + [name], closing := false), evs[1..]);
      case CloseTag(name) =>
        if st.open != [] && st.open[|st.open| - 1] == name {
          TopMatch(st, name);
          NestedRun(st.(open := st.open[..|st.open| - 1], closing := false), evs[1..]);
        } else {
          CloseWrong(st, name, evs[1..]);
        }
    }
  }

  /** A closing name that is not the top opening name leaves error text or
      a closing name behind, so the final text cannot be empty. */
  lemma CloseWrong(st: Checker, name: string, rest: seq<Event>)
    requires Quiet(st) && st.report == "" && st.closed == []
    requires !(st.open != [] && st.open[|st.open| - 1] == name)
    ensures Leftovers(RunFrom(Step(st, CloseTag(name)), rest)) != ""
  {
    var next := Step(st, CloseTag(name));
    if st.open != [] {
      SearchReport(st.open, [name], "", st.line);
      assert next.report != "";
    } else {
      assert next.closed == [name];
    }
    StepReport(st, CloseTag(name));
    StaysWrong(next, rest);
  }

  lemma {:induction false} RunLines(st: Checker, evs: seq<Event>)
    requires Lines(st.report)
    ensures Lines(RunFrom(st, evs).report)
    decreases |evs|
  {
    if evs != [] {
      StepReport(st, evs[0]);
      RunLines(Step(st, evs[0]), evs[1..]);
    }
  }

  /** A text the scan reads through gets the success text exactly when its
      tags are well nested and all of them are closed. */
  lemma CorrectIffNested(xml: string)
    requires LexFrom(xml, 0).Ok?
    ensures Detection(xml) == Ok(Correct) <==> Balance(LexFrom(xml, 0).value, []) == Some([])
  {
    var evs := LexFrom(xml, 0).value;
    RunLines(Start, evs);
    VerdictCorrect(RunFrom(Start, evs));
    NestedRun(Start, evs);
  }

  function Newlines(evs: seq<Event>): nat
    decreases |evs|
  {
    if evs == [] then 0 else (if evs[0].Newline? then 1 else 0) + Newlines(evs[1..])
  }

  /** The line number grows by one for each newline the outer loop meets,
      and only for those. */
  lemma {:induction false} LineCount(st: Checker, evs: seq<Event>)
    ensures RunFrom(st, evs).line == st.line + Newlines(evs)
    decreases |evs|
  {
    if evs != [] {
      LineCount(Step(st, evs[0]), evs[1..]);
    }
  }
}
