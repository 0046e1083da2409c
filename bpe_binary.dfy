/** The variant compressor of `customedDS/BPE.py`. It differs from `BPE.py`
    in three ways: the pair counts live in a map filled in order of first
    occurrence, the best pair is the LAST one of maximal count in that order,
    and the loop has no iteration limit. Its container layout and its
    decompression are those of `BPE.py` (`BpeCore.Decompress`). */
module BpeBinary {
  import opened Common
  import opened BpeCore

  /* ---------------------------------------------------------------- */
  /* The pair map of one round                                         */
  /* ---------------------------------------------------------------- */

  /** One entry of the round's pair map: an adjacent pair and its count. */
  datatype Entry = Entry(pair: Pair, count: nat)

  /** No pair has two entries. */
  predicate DistinctPairs(t: seq<Entry>) {
    forall i, j :: 0 <= i < j < |t| ==> t[i].pair != t[j].pair
  }

  /** The count the map holds for `p`, 0 when `p` is not a key. */
  function CountOf(t: seq<Entry>, p: Pair): nat
    decreases |t|
  {
    if t == [] then 0 else if t[0].pair == p then t[0].count else CountOf(t[1..], p)
  }

  /** One step of the counting loop: `pairs.set(pair, pairs.get(pair) + 1)`
      when the pair is a key, which updates it where it stands, and
      `pairs.set(pair, 1)`, which adds it at the end, otherwise. */
  function Bump(t: seq<Entry>, p: Pair): (r: seq<Entry>)
    ensures r != []
    decreases |t|
  {
    if t == [] then [Entry(p, 1)]
    else if t[0].pair == p then [Entry(p, t[0].count + 1)] + t[1..]
    else [t[0]] + Bump(t[1..], p)
  }

  /** After a bump, `p` counts one more, every other pair the same, keys stay
      distinct and every count stays positive. */
  lemma {:induction false} BumpCounts(t: seq<Entry>, p: Pair)
    ensures forall q :: CountOf(Bump(t, p), q) == CountOf(t, q) + (if q == p then 1 else 0)
    ensures DistinctPairs(t) ==> DistinctPairs(Bump(t, p))
    ensures (forall i :: 0 <= i < |t| ==> t[i].count >= 1) ==> forall i :: 0 <= i < |Bump(t, p)| ==> Bump(t, p)[i].count >= 1
    ensures forall i :: 0 <= i < |Bump(t, p)| ==> Bump(t, p)[i].pair == p || exists j :: 0 <= j < |t| && t[j].pair == Bump(t, p)[i].pair
    decreases |t|
  {
    if t != [] && t[0].pair != p {
      var rest := Bump(t[1..], p);
      BumpCounts(t[1..], p);
      var r := [t[0]] + rest;
      assert Bump(t, p) == r;
      forall i | 0 <= i < |r| && r[i].pair != p
        ensures exists j :: 0 <= j < |t| && t[j].pair == r[i].pair
      {
        if i == 0 {
          assert t[0].pair == r[i].pair;
        } else {
          var j :| 0 <= j < |t[1..]| && t[1..][j].pair == rest[i - 1].pair;
          assert t[j + 1].pair == r[i].pair;
        }
      }
      if DistinctPairs(t) {
        forall i | 0 < i < |r| ensures r[0].pair != r[i].pair {
          if rest[i - 1].pair != p {
            var j :| 0 <= j < |t[1..]| && t[1..][j].pair == rest[i - 1].pair;
            assert t[j + 1].pair == r[i].pair;
          }
        }
      }
    }
  }

  /** In a map without repeated keys, an entry's count is the count of its pair. */
  lemma {:induction false} CountOfAt(t: seq<Entry>, i: nat)
    requires DistinctPairs(t) && i < |t|
    ensures CountOf(t, t[i].pair) == t[i].count
    decreases i
  {
    if i > 0 {
      assert t[0].pair != t[i].pair;
      CountOfAt(t[1..], i - 1);
    }
  }

  /** The pair map after the counting loop of lines 63-74: one bump per
      adjacent position, from left to right. Each key is held once with a
      positive count, and the map is empty exactly when there is no
      adjacent position. */
  function Tally(buf: seq<byte>): (r: seq<Entry>)
    ensures |buf| >= 2 <==> r != []
    ensures DistinctPairs(r)
    ensures forall i :: 0 <= i < |r| ==> r[i].count >= 1
    decreases |buf|
  {
    if |buf| < 2 then []
    else
      var front := Tally(buf[..|buf| - 1]);
      var p := Pair(buf[|buf| - 2], buf[|buf| - 1]);
      BumpCounts(front, p);
      Bump(front, p)
  }

  /** The pair map holds, for every pair, its number of adjacent positions. */
  lemma {:induction false} TallyCounts(buf: seq<byte>)
    ensures forall q :: CountOf(Tally(buf), q) == PairCount(buf, PairIndex(q))
    decreases |buf|
  {
    if |buf| >= 2 {
      var front := buf[..|buf| - 1];
      var p := Pair(buf[|buf| - 2], buf[|buf| - 1]);
      TallyCounts(front);
      BumpCounts(Tally(front), p);
      forall q ensures CountOf(Tally(buf), q) == PairCount(buf, PairIndex(q)) {
        assert WindowIndex(buf, |buf| - 2) == PairIndex(p);
        assert PairIndex(q) == PairIndex(p) ==> q == p;
      }
    }
  }

  /** The counting loop itself. */
  method TallyPairs(buf: seq<byte>) returns (pairs: seq<Entry>)
    ensures pairs == Tally(buf)
  {
    pairs := [];
    var i := 0;
    while i + 1 < |buf|
      invariant |buf| == 0 ==> i == 0
      invariant |buf| > 0 ==> i < |buf|
      invariant pairs == Tally(buf[..if |buf| == 0 then 0 else i + 1])
    {
      assert buf[..i + 2][..i + 1] == buf[..i + 1];
      pairs := Bump(pairs, Pair(buf[i], buf[i + 1]));
      i := i + 1;
    }
    assert buf[..if |buf| == 0 then 0 else i + 1] == buf;
  }

  /** The position `__max_pair` settles on: with `>=` every later entry of
      equal count takes over, so it is the last entry of maximal count. */
  function LastMaxIndex(t: seq<Entry>): (k: nat)
    requires t != []
    ensures k < |t|
    ensures forall i :: 0 <= i < |t| ==> t[i].count <= t[k].count
    ensures forall i :: k < i < |t| ==> t[i].count < t[k].count
    decreases |t|
  {
    if |t| == 1 then 0
    else
      var j := LastMaxIndex(t[..|t| - 1]);
      if t[|t| - 1].count >= t[j].count then |t| - 1 else j
  }

  /** `__max_pair`: the scan from `max_freq = 0` with `>=`. On an empty map
      `max_pair` is never assigned and the `return` raises; that is `None`. */
  method MaxPair(items: seq<Entry>) returns (r: Option<Entry>)
    ensures items == [] ==> r == None
    ensures items != [] ==> r == Some(items[LastMaxIndex(items)])
  {
    var maxFreq := 0;
    r := None;
    ghost var best := 0;
    var i := 0;
    while i < |items|
      invariant 0 <= i <= |items|
      invariant i == 0 ==> r == None && maxFreq == 0
      invariant i > 0 ==> best == LastMaxIndex(items[..i]) && r == Some(items[best]) && maxFreq == items[best].count
    {
      assert items[..i + 1][..i] == items[..i];
      if items[i].count >= maxFreq {
        maxFreq := items[i].count;
        r := Some(items[i]);
        best := i;
      }
      i := i + 1;
    }
    assert items[..i] == items;
  }

  /* ---------------------------------------------------------------- */
  /* The substitution loop                                             */
  /* ---------------------------------------------------------------- */

  /** The loop's variables: lookup table, codes left, working buffer, count of
      the last chosen pair, and whether `__max_pair` has raised. */
  datatype BinLoop = BinLoop(table: map<byte, Pair>, avail: seq<byte>, buf: seq<byte>, last: nat, failed: bool)

  /** `last_pair_frequency == 1`, the `break` on exhausted codes, or the exception. */
  predicate BinDone(st: BinLoop) {
    st.last == 1 || st.avail == [] || st.failed
  }

  /** One pass of the loop body: count the pairs, take the lowest code, then
      let `__max_pair` choose; an empty pair map raises after the code was taken. */
  function BinRound(st: BinLoop): (r: BinLoop)
    requires st.avail != []
    ensures r.avail == st.avail[1..]
    ensures r.failed <==> |st.buf| < 2
    ensures r.failed ==> r.table == st.table && r.buf == st.buf
    ensures !r.failed ==> r.last >= 1 && r.table.Keys == st.table.Keys + {st.avail[0]} && |r.buf| <= |st.buf|
  {
    var code := st.avail[0];
    var t := Tally(st.buf);
    if t == [] then st.(avail := st.avail[1..], failed := true)
    else
      var e := t[LastMaxIndex(t)];
      BinLoop(st.table[code := e.pair], st.avail[1..], Replace(st.buf, e.pair, code), e.count, false)
  }

  function BinRun(st: BinLoop): (r: BinLoop)
    ensures BinDone(r)
    decreases |st.avail|
  {
    if BinDone(st) then st else BinRun(BinRound(st))
  }

  lemma BinRunStep(st: BinLoop)
    requires !BinDone(st)
    ensures BinRun(BinRound(st)) == BinRun(st)
  {
  }

  lemma BinRunDone(st: BinLoop)
    requires BinDone(st)
    ensures BinRun(st) == st
  {
  }

  datatype BinaryError =
    | EmptyPairMap     // `__max_pair` on an empty map: `max_pair` is unbound
    | LengthOverflow   // `len(table).to_bytes()` with 256 entries

  /** The bytes `compress_binary` writes to `output.xip`, or the exception it raises. */
  function BinaryCompressed(st: BinLoop): Result<seq<byte>, BinaryError> {
    var fin := BinRun(st);
    if fin.failed then Err(EmptyPairMap)
    else match WriteContainer(fin.table, fin.buf)
      case Ok(c) => Ok(c)
      case Err(_) => Err(LengthOverflow)
  }

  /** The byte values in ascending order: the iteration order of a `CustomSet`
      of byte values, whose bucket for `b` is `b % 4999 = b`. */
  function Members(s: set<byte>): (r: seq<byte>)
    ensures Ascending(r)
    ensures forall x: byte :: x in r <==> x in s
  {
    Select(s, true, 0)
  }

  /* ---------------------------------------------------------------- */
  /* The instance                                                      */
  /* ---------------------------------------------------------------- */

  class BinaryCodec {
    var lookupTable: map<byte, Pair>
    var rawData: seq<byte>
    var uniqueData: set<byte>
    var reserved: seq<byte>
    var available: seq<byte>

    constructor ()
      ensures lookupTable == map[] && rawData == [] && uniqueData == {}
      ensures reserved == [] && available == []
    {
      lookupTable := map[];
      rawData := [];
      uniqueData := {};
      reserved := [];
      available := [];
    }

    /** `__get_replacement`: pop the lowest available code; `None` stands for
        the exception raised when none is left. */
    method GetReplacement() returns (r: Option<byte>)
      modifies this`available
      ensures old(available) == [] ==> r == None && available == []
      ensures old(available) != [] ==> r == Some(old(available)[0]) && available == old(available)[1..]
    {
      if |available| == 0 {
        return None;
      }
      r := Some(available[0]);
      available := available[1..];
    }

    /** `compress_binary`: the set of seen bytes and the reserved list grow
        with every call and are never cleared, and neither is the table. */
    method CompressBinary(text: seq<byte>) returns (r: Result<seq<byte>, BinaryError>)
      modifies this
      ensures rawData == text
      ensures uniqueData == old(uniqueData) + Elements(text)
      ensures reserved == old(reserved) + Members(uniqueData)
      ensures var fin := BinRun(BinLoop(old(lookupTable), Absent(Elements(reserved)), text, 0, false));
        lookupTable == fin.table && available == fin.avail
      ensures r == BinaryCompressed(BinLoop(old(lookupTable), Absent(Elements(reserved)), text, 0, false))
    {
      rawData := text;
      uniqueData := uniqueData + Elements(text);
      reserved := reserved + Members(uniqueData);
      available := Absent(Elements(reserved));
      var buf, failed := BinarySubstitutions(text);
      if failed {
        return Err(EmptyPairMap);
      }
      var c := WriteContainer(lookupTable, buf);
      if c.Err? {
        return Err(LengthOverflow);
      }
      return Ok(c.value);
    }

    /** The `while` loop of lines 61-89 on the instance's table and codes. */
    method BinarySubstitutions(text: seq<byte>) returns (buf: seq<byte>, failed: bool)
      modifies this`lookupTable, this`available
      ensures var fin := BinRun(BinLoop(old(lookupTable), old(available), text, 0, false));
        lookupTable == fin.table && available == fin.avail && buf == fin.buf && failed == fin.failed
    {
      buf := text;
      var last: nat := 0;
      failed := false;
      ghost var start := BinLoop(lookupTable, available, text, 0, false);
      while last != 1
        invariant BinRun(BinLoop(lookupTable, available, buf, last, false)) == BinRun(start)
        decreases |available|
      {
        ghost var before := BinLoop(lookupTable, available, buf, last, false);
        var buf', last', stop, raised := BinarySubstitute(buf, last);
        if stop {
          break;
        }
        BinRunStep(before);
        if raised {
          failed := true;
          return;
        }
        buf, last := buf', last';
      }
      BinRunDone(BinLoop(lookupTable, available, buf, last, false));
    }

    /** One pass of the loop body (lines 62-87). `stop` is the `break` on
        exhausted codes; `raised` is the exception of `__max_pair`. */
    method BinarySubstitute(buf: seq<byte>, last: nat)
      returns (buf': seq<byte>, last': nat, stop: bool, raised: bool)
      modifies this`lookupTable, this`available
      ensures stop <==> old(available) == []
      ensures stop ==> lookupTable == old(lookupTable) && available == old(available)
      ensures !stop ==>
        BinLoop(lookupTable, available, buf', last', raised) ==
        BinRound(BinLoop(old(lookupTable), old(available), buf, last, false))
    {
      var pairs := TallyPairs(buf);
      var code := GetReplacement();
      if code.None? {
        return buf, last, true, false;
      }
      var best := MaxPair(pairs);
      if best.None? {
        return buf, last, false, true;
      }
      last' := best.value.count;
      lookupTable := lookupTable[code.value := best.value.pair];
      buf' := Replace(buf, best.value.pair, code.value);
      stop, raised := false, false;
    }
  }

  /* ---------------------------------------------------------------- */
  /* Properties                                                        */
  /* ---------------------------------------------------------------- */

  /** The state a fresh instance starts its loop from: no table, and the codes
      are the byte values absent from the input. */
  function FreshStart(text: seq<byte>): BinLoop {
    BinLoop(map[], Absent(Elements(text)), text, 0, false)
  }

  /** On a fresh instance the reserved list holds exactly the input's bytes,
      so the codes are those absent from the input. */
  lemma FreshCodes(text: seq<byte>)
    ensures Absent(Elements([] + Members({} + Elements(text)))) == Absent(Elements(text))
  {
    assert Elements([] + Members({} + Elements(text))) == Elements(text);
  }

  /** A buffer of fewer than two bytes gives an empty pair map: the first
      round takes a code and then raises, leaving the table alone. */
  lemma ShortBufferRaises(st: BinLoop)
    requires |st.buf| < 2 && !BinDone(st)
    ensures BinRun(st) == st.(avail := st.avail[1..], failed := true)
  {
    assert Tally(st.buf) == [];
  }

  /** The round-trip invariant of the binary loop. */
  ghost predicate BinTracks(st: BinLoop, text: seq<byte>) {
    && Expands(st.table, st.buf, text)
    && TakenFrom(st.table, st.avail, Absent(Elements(text)))
    && !st.failed
    && (st.last != 1 ==> |st.buf| >= 2)
  }

  lemma BinRoundTracks(st: BinLoop, text: seq<byte>)
    requires BinTracks(st, text) && !BinDone(st)
    ensures BinTracks(BinRound(st), text)
  {
    var pool := Absent(Elements(text));
    var t := Tally(st.buf);
    TallyCounts(st.buf);
    var k := LastMaxIndex(t);
    var e := t[k];
    CountOfAt(t, k);
    OccursIffCounted(st.buf, e.pair);
    var code := st.avail[0];
    TakenStep(st.table, st.avail, pool, e.pair);
    assert code in pool;
    ExpandsStep(st.table, st.buf, text, code, e.pair);
    if e.count != 1 {
      ReplaceKeepsTwo(st.buf, e.pair, code);
    }
  }

  lemma {:induction false} BinRunTracks(st: BinLoop, text: seq<byte>)
    requires BinTracks(st, text)
    ensures BinTracks(BinRun(st), text)
    decreases |st.avail|
  {
    if !BinDone(st) {
      BinRoundTracks(st, text);
      BinRunTracks(BinRound(st), text);
    }
  }

  /** On a fresh instance an input of two bytes or more compresses, and the
      container decompresses to exactly the input; a shorter input makes
      `__max_pair` raise. */
  lemma BinaryRoundTrip(text: seq<byte>)
    ensures |text| >= 2 ==> BinaryCompressed(FreshStart(text)).Ok?
    ensures |text| >= 2 ==> Decompress(BinaryCompressed(FreshStart(text)).value) == Ok(text)
    ensures |text| < 2 ==> BinaryCompressed(FreshStart(text)) == Err(EmptyPairMap)
  {
    if |text| >= 2 {
      LongRoundTrip(text);
    } else {
      ShortRaises(text);
    }
  }

  /** Two bytes or more: the run ends without failing, with a table of at
      most 255 codes and a buffer that expands back to the input. */
  lemma LongRoundTrip(text: seq<byte>)
    requires |text| >= 2
    ensures BinaryCompressed(FreshStart(text)).Ok?
    ensures Decompress(BinaryCompressed(FreshStart(text)).value) == Ok(text)
  {
    var st := FreshStart(text);
    var pool := Absent(Elements(text));
    var orig := Elements(text);
    ExpandAllPlain(map[], text);
    ExpandAllGrounded(map[], orig, text);
    assert BinTracks(st, text) by {
      assert pool[|pool|..] == [] && pool[..0] == [];
      assert pool[0..] == pool;
    }
    BinRunTracks(st, text);
    var fin := BinRun(st);
    ExpandAllGrounded(fin.table, orig, fin.buf);
    var m := |pool| - |fin.avail|;
    SetOfSeqCardinality(pool[..m]);
    AbsentShorter(orig, text[0]);
    assert |fin.table| == |fin.table.Keys|;
    ContainerRoundTrip(fin.table, fin.buf, text);
  }

  /** Fewer than two bytes: a code is available but there is no pair, so
      `__max_pair` raises. */
  lemma ShortRaises(text: seq<byte>)
    requires |text| < 2
    ensures BinaryCompressed(FreshStart(text)) == Err(EmptyPairMap)
  {
    var st := FreshStart(text);
    var pool := Absent(Elements(text));
    var x: byte := if text != [] && text[0] == 0 then 1 else 0;
    if text != [] {
      assert text == [text[0]] && x != text[0];
    }
    assert x !in Elements(text);
    assert x in pool;
    ShortBufferRaises(st);
  }
}
