/** The byte-pair-encoding compressor of `BPE.py`: the instance state, the
    substitution loop of `compress` and what its result decompresses to. The
    loop is specified by `Run`, a function over the loop's own variables; the
    method `Codec.Compress` is proved to end in the state `Run` describes,
    and the lemmas below are about `Run`. */
module Bpe {
  import opened Common
  import opened BpeCore

  /** The `iterations` argument once parsed: `None` and `""` mean no limit,
      anything else is the integer `int(iterations)` gives. */
  datatype Limit = Unlimited | Rounds(k: int)

  /** The variables of the substitution loop: the lookup table, the codes
      still available, the working buffer, the count of the last chosen pair,
      the round counter and the `iterate` flag. */
  datatype LoopState = LoopState(
    table: map<byte, Pair>,
    avail: seq<byte>,
    buf: seq<byte>,
    last: nat,
    iter: int,
    iterate: bool)

  /** `reduce` with the append-if-absent lambda: the distinct bytes of `s` in
      order of first appearance. */
  function UniqueBytes(s: seq<byte>): (r: seq<byte>)
    ensures Distinct(r)
    ensures forall x :: x in r <==> x in s
    decreases |s|
  {
    if s == [] then []
    else
      var u := UniqueBytes(s[..|s| - 1]);
      var x := s[|s| - 1];
      assert forall y :: y in s <==> y in s[..|s| - 1] || y == x;
      if x in u then u else u + [x]
  }

  /** The loop of the hand-written `reduce`. */
  method UniqueInOrder(s: seq<byte>) returns (u: seq<byte>)
    ensures u == UniqueBytes(s)
  {
    u := [];
    var i := 0;
    while i < |s|
      invariant 0 <= i <= |s|
      invariant u == UniqueBytes(s[..i])
    {
      assert s[..i + 1][..i] == s[..i];
      if s[i] !in u {
        u := u + [s[i]];
      }
      i := i + 1;
    }
    assert s[..i] == s;
  }

  /** The pool of substitution codes for an input: the byte values it does
      not contain, ascending. */
  function Pool(text: seq<byte>): (r: seq<byte>)
    ensures Ascending(r)
    ensures forall x: byte :: x in r <==> x !in text
  {
    Absent(Elements(UniqueBytes(text)))
  }

  /** The state before the first round. */
  function Initial(table: map<byte, Pair>, text: seq<byte>): LoopState {
    LoopState(table, Pool(text), text, 0, 0, true)
  }

  /** The loop condition fails, or no code is left (the `break` of line 107). */
  predicate Done(st: LoopState) {
    st.last == 1 || !st.iterate || st.avail == []
  }

  /** One pass of the loop body: take the lowest available code, choose the
      best pair of the buffer, record it, replace it, advance the counter. */
  function Round(st: LoopState, limit: Limit): (r: LoopState)
    requires st.avail != []
    ensures r.avail == st.avail[1..]
    ensures |r.buf| <= |st.buf|
    ensures r.last >= 1 <==> |st.buf| >= 2
    ensures limit.Unlimited? ==> r.iterate == st.iterate
    ensures limit.Rounds? ==> (r.iterate <==> r.iter < limit.k)
  {
    var code := st.avail[0];
    var k := BestIndex(st.buf);
    assert |st.buf| >= 2 ==> PairCount(st.buf, k) >= 1 by {
      if |st.buf| >= 2 { BestCountPositive(st.buf); }
    }
    var p := PairAt(k);
    var iter := if limit.Rounds? then st.iter + 1 else st.iter;
    LoopState(
      st.table[code := p],
      st.avail[1..],
      Replace(st.buf, p, code),
      PairCount(st.buf, k),
      iter,
      if limit.Rounds? then iter < limit.k else st.iterate)
  }

  /** The whole loop. It ends in a state where the loop condition fails or
      the codes ran out. */
  function Run(st: LoopState, limit: Limit): (r: LoopState)
    ensures Done(r)
    decreases |st.avail|
  {
    if Done(st) then st else Run(Round(st, limit), limit)
  }

  lemma RunStep(st: LoopState, limit: Limit)
    requires !Done(st)
    ensures Run(Round(st, limit), limit) == Run(st, limit)
  {
  }

  lemma RunDone(st: LoopState, limit: Limit)
    requires Done(st)
    ensures Run(st, limit) == st
  {
  }

  /** The container `compress` writes for `text`, starting from `table`. */
  function Compressed(table: map<byte, Pair>, text: seq<byte>, limit: Limit): Result<seq<byte>, EncodeError> {
    var fin := Run(Initial(table, text), limit);
    WriteContainer(fin.table, fin.buf)
  }

  /** The codes the loop takes from `st`, in the order it takes them. */
  function Taken(st: LoopState, limit: Limit): seq<byte>
    decreases |st.avail|
  {
    if Done(st) then [] else [st.avail[0]] + Taken(Round(st, limit), limit)
  }

  /* ---------------------------------------------------------------- */
  /* The instance                                                      */
  /* ---------------------------------------------------------------- */

  class Codec {
    var lookupTable: map<byte, Pair>
    var rawData: seq<byte>
    var uniqueData: seq<byte>
    var available: seq<byte>

    constructor ()
      ensures lookupTable == map[] && rawData == [] && uniqueData == [] && available == []
    {
      lookupTable := map[];
      rawData := [];
      uniqueData := [];
      available := [];
    }

    /** `__get_replacement`: pop the lowest available code; `None` stands for
        the exception raised when none is left. */
    method GetReplacement() returns (r: Option<byte>)
      modifies this`available
      ensures old(available) == [] ==> r == None && available == []
      ensures old(available) != [] ==> r == Some(old(available)[0]) && available == old(available)[1..]
    {
      if |available| == 0 {
        return None;
      }
      r := Some(available[0]);
      available := available[1..];
    }

    /** `compress` on the UTF-8 bytes of the text: the table an earlier call
        left behind is kept, as in the source. */
    method Compress(text: seq<byte>, limit: Limit) returns (r: Result<seq<byte>, EncodeError>)
      modifies this
      ensures rawData == text && uniqueData == UniqueBytes(text)
      ensures lookupTable == Run(Initial(old(lookupTable), text), limit).table
      ensures available == Run(Initial(old(lookupTable), text), limit).avail
      ensures r == Compressed(old(lookupTable), text, limit)
    {
      rawData := text;
      uniqueData := UniqueInOrder(text);
      available := Absent(Elements(uniqueData));
      var buf := Substitutions(text, limit);
      r := WriteContainer(lookupTable, buf);
    }

    /** The `while` loop of `compress` on the instance's table and codes,
        starting from the raw bytes; returns the final buffer. */
    method Substitutions(text: seq<byte>, limit: Limit) returns (buf: seq<byte>)
      modifies this`lookupTable, this`available
      ensures var fin := Run(LoopState(old(lookupTable), old(available), text, 0, 0, true), limit);
        lookupTable == fin.table && available == fin.avail && buf == fin.buf
    {
      var last: nat := 0;
      buf := text;
      var iter := 0;
      var iterate := true;
      ghost var start := LoopState(lookupTable, available, text, 0, 0, true);
      while last != 1 && iterate
        invariant Run(LoopState(lookupTable, available, buf, last, iter, iterate), limit) == Run(start, limit)
        decreases |available|
      {
        ghost var before := LoopState(lookupTable, available, buf, last, iter, iterate);
        var buf', last', iter', iterate', stop := Substitute(buf, last, iter, iterate, limit);
        if stop {
          break;
        }
        buf, last, iter, iterate := buf', last', iter', iterate';
        RunStep(before, limit);
      }
      RunDone(LoopState(lookupTable, available, buf, last, iter, iterate), limit);
    }

    /** One pass of the loop body (lines 95-128): count the pairs, take a
        code (`stop` when none is left, the `break`), pick the best pair,
        record it and replace it in the buffer. */
    method Substitute(buf: seq<byte>, last: nat, iter: int, iterate: bool, limit: Limit)
      returns (buf': seq<byte>, last': nat, iter': int, iterate': bool, stop: bool)
      modifies this`lookupTable, this`available
      ensures stop <==> old(available) == []
      ensures stop ==> lookupTable == old(lookupTable) && available == old(available)
      ensures !stop ==>
        LoopState(lookupTable, available, buf', last', iter', iterate') ==
        Round(LoopState(old(lookupTable), old(available), buf, last, iter, iterate), limit)
    {
      var freq := CountPairs(buf);
      var code := GetReplacement();
      if code.None? {
        return buf, last, iter, iterate, true;
      }
      var index := PickBest(buf, freq);
      last' := freq[index];
      var p := PairAt(index);
      lookupTable := lookupTable[code.value := p];
      buf' := Replace(buf, p, code.value);
      iter' := iter;
      iterate' := iterate;
      if limit.Rounds? {
        iter' := iter + 1;
        iterate' := iter' < limit.k;
      }
      stop := false;
    }
  }

  /** The counting loop: `freq[first * 256 + second]` is the number of
      adjacent positions holding that pair. */
  method CountPairs(buf: seq<byte>) returns (freq: array<nat>)
    ensures fresh(freq) && freq.Length == 65536
    ensures forall j :: 0 <= j < 65536 ==> freq[j] == PairCount(buf, j)
  {
    freq := new nat[65536](_ => 0);
    var i := 0;
    while i + 1 < |buf|
      invariant |buf| == 0 ==> i == 0
      invariant |buf| > 0 ==> i < |buf|
      invariant forall j :: 0 <= j < 65536 ==> freq[j] == PairCount(buf[..if |buf| == 0 then 0 else i + 1], j)
    {
      var index := buf[i] as int * 256 + buf[i + 1] as int;
      assert buf[..i + 2][..i + 1] == buf[..i + 1];
      assert WindowIndex(buf[..i + 2], i) == index;
      freq[index] := freq[index] + 1;
      i := i + 1;
    }
    assert buf[..if |buf| == 0 then 0 else i + 1] == buf;
  }

  /** Lines 109-115: scan the counts of `buf` for the best slot. */
  method PickBest(buf: seq<byte>, freq: array<nat>) returns (index: nat)
    requires freq.Length == 65536
    requires forall j :: 0 <= j < 65536 ==> freq[j] == PairCount(buf, j)
    ensures index == BestIndex(buf) && freq[index] == PairCount(buf, index)
  {
    var maxVal;
    index, maxVal := ScanMax(freq);
    BestIndexIsBest(buf);
    BestUnique(buf, index, BestIndex(buf));
  }

  /** The maximum scan with a strict `>` from `max_val = 0`: the first slot
      holding the largest count, or slot 0 when every count is 0. */
  method ScanMax(freq: array<nat>) returns (index: nat, maxVal: nat)
    ensures freq.Length == 0 ==> index == 0 && maxVal == 0
    ensures freq.Length > 0 ==> index < freq.Length && maxVal == freq[index]
    ensures forall j :: 0 <= j < freq.Length ==> freq[j] <= maxVal
    ensures forall j :: 0 <= j < index && j < freq.Length ==> freq[j] < maxVal
  {
    maxVal := 0;
    index := 0;
    var i := 0;
    while i < freq.Length
      invariant 0 <= i <= freq.Length
      invariant index < freq.Length || (index == 0 && maxVal == 0)
      invariant index <= i
      invariant (maxVal == 0 && index == 0) || (index < i && maxVal == freq[index])
      invariant forall j :: 0 <= j < i ==> freq[j] <= maxVal
      invariant forall j :: 0 <= j < index ==> freq[j] < maxVal
    {
      if freq[i] > maxVal {
        maxVal := freq[i];
        index := i;
      }
      i := i + 1;
    }
  }

  /* ---------------------------------------------------------------- */
  /* What the loop does                                                */
  /* ---------------------------------------------------------------- */

  /** The loop takes its codes from the front of the pool and leaves the rest. */
  lemma {:induction false} TakenPrefix(st: LoopState, limit: Limit)
    ensures |Taken(st, limit)| <= |st.avail|
    ensures Taken(st, limit) == st.avail[..|Taken(st, limit)|]
    ensures Run(st, limit).avail == st.avail[|Taken(st, limit)|..]
    decreases |st.avail|
  {
    if !Done(st) {
      var nx := Round(st, limit);
      TakenPrefix(nx, limit);
      var m := |Taken(nx, limit)|;
      assert st.avail[..m + 1] == [st.avail[0]] + nx.avail[..m];
      assert st.avail[m + 1..] == nx.avail[m..];
    }
  }

  /** Every code taken becomes a key, and no other key appears. */
  lemma {:induction false} RunKeys(st: LoopState, limit: Limit)
    ensures Run(st, limit).table.Keys == st.table.Keys + Elements(Taken(st, limit))
    decreases |st.avail|
  {
    if !Done(st) {
      var nx := Round(st, limit);
      assert nx.table == st.table[st.avail[0] := PairAt(BestIndex(st.buf))];
      RunKeys(nx, limit);
      assert Elements(Taken(st, limit)) == {st.avail[0]} + Elements(Taken(nx, limit));
    }
  }

  /** An entry whose key is not taken again keeps its pair. */
  lemma {:induction false} RunKeeps(st: LoopState, limit: Limit)
    ensures forall c :: c in st.table && c !in Taken(st, limit) ==> c in Run(st, limit).table && Run(st, limit).table[c] == st.table[c]
    decreases |st.avail|
  {
    if !Done(st) {
      RunKeeps(Round(st, limit), limit);
    }
  }

  /** On a buffer shorter than two bytes without a limit, no count is ever 1
      and the loop goes on until every code is taken, leaving the buffer alone. */
  lemma {:induction false} ShortInputTakesAll(st: LoopState)
    requires |st.buf| < 2 && st.last != 1 && st.iterate
    ensures Taken(st, Unlimited) == st.avail
    ensures Run(st, Unlimited).buf == st.buf
    decreases |st.avail|
  {
    if st.avail != [] {
      ShortRound(st);
      ShortInputTakesAll(Round(st, Unlimited));
    }
  }

  /** A round on a buffer shorter than two bytes records (0x00, 0x00) and
      leaves the buffer alone. */
  lemma ShortRound(st: LoopState)
    requires |st.buf| < 2 && st.avail != []
    ensures Round(st, Unlimited) ==
      LoopState(st.table[st.avail[0] := Pair(0, 0)], st.avail[1..], st.buf, 0, st.iter, st.iterate)
  {
  }

  /** ... and every round on such a buffer records the pair (0x00, 0x00). */
  lemma {:induction false} ShortInputPairs(st: LoopState)
    requires |st.buf| < 2 && st.last != 1 && st.iterate
    ensures forall c :: c in Taken(st, Unlimited) ==> c in Run(st, Unlimited).table && Run(st, Unlimited).table[c] == Pair(0, 0)
    decreases |st.avail|
  {
    if st.avail != [] {
      var a := st.avail[0];
      ShortRound(st);
      var nx := LoopState(st.table[a := Pair(0, 0)], st.avail[1..], st.buf, 0, st.iter, st.iterate);
      ShortInputPairs(nx);
      RunKeeps(nx, Unlimited);
      assert Run(st, Unlimited) == Run(nx, Unlimited);
      assert Taken(st, Unlimited) == [a] + Taken(nx, Unlimited);
    }
  }

  /** With `iterations = k` the loop runs at most `max(k, 1)` rounds. */
  lemma {:induction false} RoundsBound(st: LoopState, k: int)
    requires st.iterate
    ensures |Taken(st, Rounds(k))| <= if k - st.iter > 1 then k - st.iter else 1
    decreases |st.avail|
  {
    if !Done(st) {
      var nx := Round(st, Rounds(k));
      if nx.iterate {
        RoundsBound(nx, k);
      }
    }
  }

  /** Without a limit, the loop only stops on a count of 1 or on exhausted codes. */
  lemma UnlimitedStops(st: LoopState)
    requires st.iterate
    ensures Run(st, Unlimited).last == 1 || Run(st, Unlimited).avail == []
    decreases |st.avail|
  {
    if !Done(st) {
      UnlimitedStops(Round(st, Unlimited));
    }
  }

  /* ---------------------------------------------------------------- */
  /* Round trip on a fresh instance                                    */
  /* ---------------------------------------------------------------- */

  /** The round-trip invariant for inputs of two bytes or more: while the
      loop goes on, the buffer still holds a pair. */
  ghost predicate Tracks(st: LoopState, text: seq<byte>) {
    && Expands(st.table, st.buf, text)
    && TakenFrom(st.table, st.avail, Pool(text))
    && (st.last != 1 ==> |st.buf| >= 2)
  }

  lemma RoundTracks(st: LoopState, text: seq<byte>, limit: Limit)
    requires Tracks(st, text) && !Done(st)
    ensures Tracks(Round(st, limit), text)
  {
    var code := st.avail[0];
    var k := BestIndex(st.buf);
    var p := PairAt(k);
    BestCountPositive(st.buf);
    OccursIffCounted(st.buf, p);
    TakenStep(st.table, st.avail, Pool(text), p);
    assert code in Pool(text);
    ExpandsStep(st.table, st.buf, text, code, p);
    var nx := Round(st, limit);
    assert nx.table == st.table[code := p] && nx.buf == Replace(st.buf, p, code);
    assert nx.avail == st.avail[1..] && nx.last == PairCount(st.buf, k);
    if nx.last != 1 {
      ReplaceKeepsTwo(st.buf, p, code);
    }
  }

  lemma {:induction false} RunTracks(st: LoopState, text: seq<byte>, limit: Limit)
    requires Tracks(st, text)
    ensures Tracks(Run(st, limit), text)
    decreases |st.avail|
  {
    if !Done(st) {
      RoundTracks(st, text, limit);
      RunTracks(Round(st, limit), text, limit);
    }
  }

  /** On a buffer of fewer than two bytes the loop never touches the buffer. */
  lemma {:induction false} RunKeepsShort(st: LoopState, limit: Limit)
    requires |st.buf| < 2
    ensures Run(st, limit).buf == st.buf
    decreases |st.avail|
  {
    if !Done(st) {
      RunKeepsShort(Round(st, limit), limit);
    }
  }

  /** At most 255 codes exist for a non-empty input, all 256 for the empty one. */
  lemma PoolSize(text: seq<byte>)
    ensures text != [] ==> |Pool(text)| <= 255
    ensures text == [] ==> |Pool(text)| == 256
  {
    if text != [] {
      AbsentShorter(Elements(UniqueBytes(text)), text[0]);
    } else {
      assert Elements(UniqueBytes(text)) == {};
      SelectAll(0);
    }
  }

  /** A fresh table ends with one entry per code taken. */
  lemma FreshTableSize(text: seq<byte>, limit: Limit)
    ensures |Run(Initial(map[], text), limit).table| == |Taken(Initial(map[], text), limit)|
  {
    var st := Initial(map[], text);
    RunKeys(st, limit);
    TakenPrefix(st, limit);
    var t := Taken(st, limit);
    AscendingDistinct(st.avail);
    assert Distinct(t);
    DistinctCardinality(t);
    assert Run(st, limit).table.Keys == Elements(t);
  }

  /** On an input of two bytes or more the final buffer expands back to the input. */
  lemma FreshExpandsLong(text: seq<byte>, limit: Limit)
    requires |text| >= 2
    ensures var fin := Run(Initial(map[], text), limit); ExpandAll(fin.table, fin.buf) == Some(text)
  {
    var st := Initial(map[], text);
    var orig := Elements(text);
    ExpandAllPlain(map[], text);
    ExpandAllGrounded(map[], orig, text);
    assert Tracks(st, text) by {
      assert Pool(text)[|Pool(text)|..] == [] && Pool(text)[..0] == [];
      assert Pool(text)[0..] == Pool(text);
    }
    RunTracks(st, text, limit);
    var fin := Run(st, limit);
    ExpandAllGrounded(fin.table, orig, fin.buf);
  }

  /** On a shorter input the buffer is never touched and no code is one of its bytes. */
  lemma FreshExpandsShort(text: seq<byte>, limit: Limit)
    requires |text| < 2
    ensures var fin := Run(Initial(map[], text), limit); ExpandAll(fin.table, fin.buf) == Some(text)
  {
    var st := Initial(map[], text);
    var fin := Run(st, limit);
    assert fin.buf == text by {
      RunKeepsShort(st, limit);
    }
    assert forall x :: x in fin.table ==> x !in text by {
      RunKeys(st, limit);
      TakenPrefix(st, limit);
      var t := Taken(st, limit);
      forall x | x in t ensures x !in text {
        var j :| 0 <= j < |t| && t[j] == x;
        assert x == Pool(text)[j];
      }
    }
    assert forall i :: 0 <= i < |fin.buf| ==> fin.buf[i] !in fin.table by {
      forall i | 0 <= i < |fin.buf| ensures fin.buf[i] !in fin.table {
        assert fin.buf[i] in text;
      }
    }
    ExpandAllPlain(fin.table, fin.buf);
  }

  /** On a fresh instance, a successful compression decompresses to exactly
      the input bytes, and compression succeeds on every non-empty input. */
  lemma FreshRoundTrip(text: seq<byte>, limit: Limit)
    ensures text != [] ==> Compressed(map[], text, limit).Ok?
    ensures Compressed(map[], text, limit).Ok? ==> Decompress(Compressed(map[], text, limit).value) == Ok(text)
  {
    var fin := Run(Initial(map[], text), limit);
    PoolSize(text);
    TakenPrefix(Initial(map[], text), limit);
    FreshTableSize(text, limit);
    if |fin.table| <= 255 {
      if |text| >= 2 {
        FreshExpandsLong(text, limit);
      } else {
        FreshExpandsShort(text, limit);
      }
      ContainerRoundTrip(fin.table, fin.buf, text);
    }
  }

  /** The empty input without a limit records a pair for all 256 codes, which
      the one-byte header cannot count: compression fails. */
  lemma EmptyInputOverflows()
    ensures Compressed(map[], [], Unlimited) == Err(HeaderOverflow)
  {
    var st := Initial(map[], []);
    ShortInputTakesAll(st);
    PoolSize([]);
    FreshTableSize([], Unlimited);
  }

  /** With `iterations = k` a fresh table has at most `max(k, 1)` entries. */
  lemma FreshRoundsBound(text: seq<byte>, k: int)
    ensures |Run(Initial(map[], text), Rounds(k)).table| <= if k > 1 then k else 1
  {
    RoundsBound(Initial(map[], text), k);
    FreshTableSize(text, Rounds(k));
  }
}
