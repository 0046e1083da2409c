/** The byte-level pieces that both byte-pair codecs of the repository share:
    pairs and their frequency counts, the literal pair replacement of
    `bytearray.replace`, the recursive expansion of a substitution code, and
    the container layout `[N] ++ payload ++ N x (code, first, second)` with
    its reader. The grounded-table invariant and the lemmas that one
    substitution round preserves it live here too, because both compressors
    rely on them for their round trip. */
module BpeCore {
  import opened Common

  /** An ordered pair of bytes, the value stored for each code in the lookup table. */
  datatype Pair = Pair(first: byte, second: byte)

  /** The slot of a pair in the 65536-entry frequency table: `first * 256 + second`. */
  function PairIndex(p: Pair): (k: nat)
    ensures k < 65536
    ensures k / 256 == p.first && k % 256 == p.second
  {
    p.first as int * 256 + p.second as int
  }

  /** The pair stored in slot `k`: `(k // 256, k % 256)`. */
  function PairAt(k: nat): (p: Pair)
    requires k < 65536
    ensures PairIndex(p) == k
  {
    Pair(k / 256, k % 256)
  }

  /** The slot of the adjacent pair at positions `i`, `i + 1`. */
  function WindowIndex(buf: seq<byte>, i: nat): (k: nat)
    requires i + 1 < |buf|
    ensures k < 65536 && k == PairIndex(Pair(buf[i], buf[i + 1]))
  {
    buf[i] as int * 256 + buf[i + 1] as int
  }

  /** Some adjacent pair of `buf` sits in slot `k`. */
  ghost predicate HasWindow(buf: seq<byte>, k: nat) {
    exists i :: 0 <= i < |buf| - 1 && WindowIndex(buf, i) == k
  }

  /** How many adjacent positions of `buf` hold the pair of slot `k`
      (overlapping windows all count, as in the counting loop). */
  function PairCount(buf: seq<byte>, k: nat): (c: nat)
    ensures |buf| < 2 ==> c == 0
    ensures |buf| >= 1 ==> c <= |buf| - 1
    decreases |buf|
  {
    if |buf| < 2 then 0
    else PairCount(buf[..|buf| - 1], k) + (if WindowIndex(buf, |buf| - 2) == k then 1 else 0)
  }

  /** A slot has a positive count exactly when some window of the buffer holds it. */
  lemma {:induction false} CountPositive(buf: seq<byte>, k: nat)
    ensures PairCount(buf, k) > 0 <==> HasWindow(buf, k)
    decreases |buf|
  {
    if |buf| >= 2 {
      var front := buf[..|buf| - 1];
      CountPositive(front, k);
      if HasWindow(front, k) {
        var i :| 0 <= i < |front| - 1 && WindowIndex(front, i) == k;
        assert WindowIndex(buf, i) == k;
      }
      if HasWindow(buf, k) {
        var i :| 0 <= i < |buf| - 1 && WindowIndex(buf, i) == k;
        if i < |buf| - 2 {
          assert WindowIndex(front, i) == k;
        }
      }
    }
  }

  /** The components of a counted pair occur in the buffer. */
  lemma WindowBytes(buf: seq<byte>, k: nat)
    requires k < 65536 && PairCount(buf, k) > 0
    ensures PairAt(k).first in buf && PairAt(k).second in buf
  {
    CountPositive(buf, k);
    var i :| 0 <= i < |buf| - 1 && WindowIndex(buf, i) == k;
    assert PairAt(k) == Pair(buf[i], buf[i + 1]);
  }

  /** Slot `k` holds the highest count, and no lower slot holds that count:
      the pair that an ascending scan with a strict `>` keeps. */
  ghost predicate IsBest(buf: seq<byte>, k: nat) {
    && k < 65536
    && (forall j :: 0 <= j < 65536 ==> PairCount(buf, j) <= PairCount(buf, k))
    && (forall j :: 0 <= j < k ==> PairCount(buf, j) < PairCount(buf, k))
  }

  lemma BestUnique(buf: seq<byte>, a: nat, b: nat)
    requires IsBest(buf, a) && IsBest(buf, b)
    ensures a == b
  {
    assert PairCount(buf, a) <= PairCount(buf, b) && PairCount(buf, b) <= PairCount(buf, a);
  }

  /** Slot `k` beats slot `best`: a higher count, or the same count at a lower slot. */
  predicate Beats(buf: seq<byte>, k: nat, best: nat) {
    PairCount(buf, k) > PairCount(buf, best) || (PairCount(buf, k) == PairCount(buf, best) && k < best)
  }

  /** The best slot among the windows from position `i` on, starting from `best`. */
  function BestFrom(buf: seq<byte>, i: nat, best: nat): (r: nat)
    requires best < 65536
    ensures r < 65536
    decreases |buf| - i
  {
    if i + 1 >= |buf| then best
    else
      var k := WindowIndex(buf, i);
      BestFrom(buf, i + 1, if Beats(buf, k, best) then k else best)
  }

  lemma {:induction false} BestFromDominates(buf: seq<byte>, i: nat, best: nat)
    requires best < 65536 && PairCount(buf, best) > 0
    requires forall q :: 0 <= q < i && q + 1 < |buf| ==> !Beats(buf, WindowIndex(buf, q), best)
    ensures PairCount(buf, BestFrom(buf, i, best)) > 0
    ensures forall q :: 0 <= q < |buf| - 1 ==> !Beats(buf, WindowIndex(buf, q), BestFrom(buf, i, best))
    decreases |buf| - i
  {
    if i + 1 < |buf| {
      var k := WindowIndex(buf, i);
      CountPositive(buf, k);
      var next := if Beats(buf, k, best) then k else best;
      BestFromDominates(buf, i + 1, next);
    }
  }

  /** The pair a round substitutes, computed over the windows of the buffer
      only; `BestIndexIsBest` states what it is, and 0 (the pair
      (0x00, 0x00)) is what the scan keeps when no pair exists at all. */
  function BestIndex(buf: seq<byte>): (k: nat)
    ensures k < 65536
    ensures |buf| < 2 ==> k == 0
  {
    if |buf| < 2 then 0 else BestFrom(buf, 0, WindowIndex(buf, 0))
  }

  /** The chosen slot has the highest count, and it is the lowest slot with that count. */
  lemma BestIndexIsBest(buf: seq<byte>)
    ensures IsBest(buf, BestIndex(buf))
  {
    if |buf| >= 2 {
      var first := WindowIndex(buf, 0);
      CountPositive(buf, first);
      BestFromDominates(buf, 0, first);
      BestIsBest(buf, BestFrom(buf, 0, first));
    }
  }

  lemma BestIsBest(buf: seq<byte>, r: nat)
    requires r < 65536 && PairCount(buf, r) > 0
    requires forall q :: 0 <= q < |buf| - 1 ==> !Beats(buf, WindowIndex(buf, q), r)
    ensures IsBest(buf, r)
  {
    forall j | 0 <= j < 65536
      ensures PairCount(buf, j) <= PairCount(buf, r)
      ensures j < r ==> PairCount(buf, j) < PairCount(buf, r)
    {
      CountPositive(buf, j);
      if PairCount(buf, j) > 0 {
        var q :| 0 <= q < |buf| - 1 && WindowIndex(buf, q) == j;
        assert !Beats(buf, j, r);
      }
    }
  }

  /** The best count is at least 1 as soon as the buffer holds a pair. */
  lemma BestCountPositive(buf: seq<byte>)
    requires |buf| >= 2
    ensures PairCount(buf, BestIndex(buf)) >= 1
  {
    CountPositive(buf, WindowIndex(buf, 0));
    BestIndexIsBest(buf);
  }

  /** Some window of `buf` holds the pair `p`. */
  ghost predicate Occurs(buf: seq<byte>, p: Pair) {
    exists i :: 0 <= i < |buf| - 1 && buf[i] == p.first && buf[i + 1] == p.second
  }

  lemma OccursIffCounted(buf: seq<byte>, p: Pair)
    ensures Occurs(buf, p) <==> PairCount(buf, PairIndex(p)) > 0
  {
    CountPositive(buf, PairIndex(p));
    if Occurs(buf, p) {
      var i :| 0 <= i < |buf| - 1 && buf[i] == p.first && buf[i + 1] == p.second;
      assert WindowIndex(buf, i) == PairIndex(p);
    }
    if HasWindow(buf, PairIndex(p)) {
      var i :| 0 <= i < |buf| - 1 && WindowIndex(buf, i) == PairIndex(p);
      assert buf[i] == p.first && buf[i + 1] == p.second;
    }
  }

  /** `bytearray.replace(pair, code)` for a two-byte pattern: occurrences are
      replaced left to right and never overlap. */
  function Replace(buf: seq<byte>, p: Pair, code: byte): (r: seq<byte>)
    ensures |r| <= |buf|
    ensures 2 * |r| >= |buf|
    ensures |buf| < 2 ==> r == buf
    decreases |buf|
  {
    if |buf| < 2 then buf
    else if buf[0] == p.first && buf[1] == p.second then [code] + Replace(buf[2..], p, code)
    else [buf[0]] + Replace(buf[1..], p, code)
  }

  /** The buffer gets shorter exactly when the pair occurs in it. */
  lemma {:induction false} ReplaceShrinks(buf: seq<byte>, p: Pair, code: byte)
    ensures |Replace(buf, p, code)| < |buf| <==> Occurs(buf, p)
    decreases |buf|
  {
    if |buf| >= 2 {
      if buf[0] == p.first && buf[1] == p.second {
        assert Occurs(buf, p) by { assert buf[0] == p.first && buf[1] == p.second; }
      } else {
        ReplaceShrinks(buf[1..], p, code);
        if Occurs(buf, p) {
          var i :| 0 <= i < |buf| - 1 && buf[i] == p.first && buf[i + 1] == p.second;
          assert i > 0;
          assert buf[1..][i - 1] == p.first && buf[1..][i] == p.second;
        }
        if Occurs(buf[1..], p) {
          var i :| 0 <= i < |buf[1..]| - 1 && buf[1..][i] == p.first && buf[1..][i + 1] == p.second;
          assert buf[i + 1] == p.first && buf[i + 2] == p.second;
        }
      }
    }
  }

  /** Every byte of the result is the code or a byte of the input. */
  lemma {:induction false} ReplaceBytes(buf: seq<byte>, p: Pair, code: byte)
    ensures forall x :: x in Replace(buf, p, code) ==> x == code || x in buf
    decreases |buf|
  {
    if |buf| >= 2 {
      if buf[0] == p.first && buf[1] == p.second {
        ReplaceBytes(buf[2..], p, code);
        assert forall x :: x in buf[2..] ==> x in buf;
      } else {
        ReplaceBytes(buf[1..], p, code);
        assert forall x :: x in buf[1..] ==> x in buf;
      }
    }
  }

  /** A buffer holding a pair still holds at least one byte after replacement,
      and at least two when the best pair occurred twice or more. */
  lemma ReplaceKeepsTwo(buf: seq<byte>, p: Pair, code: byte)
    requires |buf| >= 2 && PairCount(buf, PairIndex(p)) >= 2
    ensures |Replace(buf, p, code)| >= 2
  {
  }

  /* ---------------------------------------------------------------- */
  /* Expansion (`__get_original`)                                      */
  /* ---------------------------------------------------------------- */

  /** Deeper than any acyclic table over 256 byte values can need. The source
      recurses without bound, so running out of depth stands for a table in
      which some code reaches itself again (a recursion that never ends). */
  const MaxDepth: nat := 256

  /** The bytes a code stands for: a table key expands to the expansion of its
      first byte followed by that of its second; any other byte is itself. */
  function Expand(table: map<byte, Pair>, b: byte, fuel: nat): (r: Option<seq<byte>>)
    ensures b !in table ==> r == Some([b])
    ensures r.Some? ==> |r.value| >= 1
    decreases fuel
  {
    if b !in table then Some([b])
    else if fuel == 0 then None
    else
      match (Expand(table, table[b].first, fuel - 1), Expand(table, table[b].second, fuel - 1))
      case (Some(x), Some(y)) => Some(x + y)
      case _ => None
  }

  /** Expansion of every byte of `s`, concatenated in order; every byte
      gives at least one. */
  function ExpandAll(table: map<byte, Pair>, s: seq<byte>): (r: Option<seq<byte>>)
    ensures r.Some? ==> |r.value| >= |s|
    decreases |s|
  {
    if s == [] then Some([])
    else
      match (Expand(table, s[0], MaxDepth), ExpandAll(table, s[1..]))
      case (Some(x), Some(y)) => Some(x + y)
      case _ => None
  }

  /** Expansion distributes over concatenation: `b"".join` of the parts. */
  lemma {:induction false} ExpandAllSplit(table: map<byte, Pair>, s: seq<byte>, t: seq<byte>)
    ensures ExpandAll(table, s + t) ==
      match (ExpandAll(table, s), ExpandAll(table, t))
      case (Some(x), Some(y)) => Some(x + y)
      case _ => None
    decreases |s|
  {
    if s == [] {
      assert s + t == t;
      match ExpandAll(table, t)
      case Some(y) => assert [] + y == y;
      case None =>
    } else {
      assert (s + t)[0] == s[0];
      assert (s + t)[1..] == s[1..] + t;
      ExpandAllSplit(table, s[1..], t);
      match (Expand(table, s[0], MaxDepth), ExpandAll(table, s[1..]), ExpandAll(table, t))
      case (Some(x), Some(y), Some(z)) => assert x + (y + z) == (x + y) + z;
      case _ =>
    }
  }

  /** Bytes that are not table keys expand to themselves. */
  lemma {:induction false} ExpandAllPlain(table: map<byte, Pair>, s: seq<byte>)
    requires forall i :: 0 <= i < |s| ==> s[i] !in table
    ensures ExpandAll(table, s) == Some(s)
    decreases |s|
  {
    if s != [] {
      ExpandAllPlain(table, s[1..]);
      assert s == [s[0]] + s[1..];
    }
  }

  lemma ExpandAllSingle(table: map<byte, Pair>, b: byte)
    ensures ExpandAll(table, [b]) == Expand(table, b, MaxDepth)
  {
    assert [b][1..] == [];
    match Expand(table, b, MaxDepth)
    case Some(x) => assert x + [] == x;
    case None =>
  }

  /* ---------------------------------------------------------------- */
  /* Grounded tables: why the expansion of a compressed buffer ends    */
  /* ---------------------------------------------------------------- */

  /** Byte `x` inside the pair of code `k` is an original byte, or a code
      numerically smaller than `k`. */
  ghost predicate Rooted(table: map<byte, Pair>, orig: set<byte>, k: byte, x: byte) {
    x in orig || (x in table && x < k)
  }

  /** No code is an original byte, and every pair uses only original bytes
      and smaller codes. Codes handed out in ascending order from the bytes
      absent from the input, each replacing a pair of the current buffer,
      keep this. */
  ghost predicate Grounded(table: map<byte, Pair>, orig: set<byte>) {
    && (forall k :: k in table ==> k !in orig)
    && (forall k :: k in table ==> Rooted(table, orig, k, table[k].first) && Rooted(table, orig, k, table[k].second))
  }

  ghost predicate Known(table: map<byte, Pair>, orig: set<byte>, x: byte) {
    x in orig || x in table
  }

  /** The original bytes a byte stands for under a grounded table; it needs no fuel. */
  ghost function Original(table: map<byte, Pair>, orig: set<byte>, b: byte): seq<byte>
    requires Grounded(table, orig)
    decreases if b in table then b + 1 else 0
  {
    if b !in table then [b]
    else Original(table, orig, table[b].first) + Original(table, orig, table[b].second)
  }

  ghost function OriginalAll(table: map<byte, Pair>, orig: set<byte>, s: seq<byte>): seq<byte>
    requires Grounded(table, orig)
    decreases |s|
  {
    if s == [] then [] else Original(table, orig, s[0]) + OriginalAll(table, orig, s[1..])
  }

  /** Under a grounded table, expansion with enough depth always succeeds,
      with the fuel-free expansion as its value. */
  lemma {:induction false} ExpandGrounded(table: map<byte, Pair>, orig: set<byte>, b: byte, fuel: nat)
    requires Grounded(table, orig)
    requires fuel > b
    ensures Expand(table, b, fuel) == Some(Original(table, orig, b))
    decreases b
  {
    if b in table {
      var p := table[b];
      assert Rooted(table, orig, b, p.first) && Rooted(table, orig, b, p.second);
      var x := Original(table, orig, p.first);
      var y := Original(table, orig, p.second);
      if p.first in table {
        ExpandGrounded(table, orig, p.first, fuel - 1);
      }
      if p.second in table {
        ExpandGrounded(table, orig, p.second, fuel - 1);
      }
      assert Expand(table, p.first, fuel - 1) == Some(x);
      assert Expand(table, p.second, fuel - 1) == Some(y);
      assert Original(table, orig, b) == x + y;
    }
  }

  lemma {:induction false} ExpandAllGrounded(table: map<byte, Pair>, orig: set<byte>, s: seq<byte>)
    requires Grounded(table, orig)
    ensures ExpandAll(table, s) == Some(OriginalAll(table, orig, s))
    decreases |s|
  {
    if s != [] {
      ExpandGrounded(table, orig, s[0], MaxDepth);
      ExpandAllGrounded(table, orig, s[1..]);
    }
  }

  /** Adding a fresh, larger code leaves the expansion of every known byte alone. */
  lemma {:induction false} OriginalExtend(table: map<byte, Pair>, orig: set<byte>, code: byte, p: Pair, b: byte)
    requires Grounded(table, orig) && Grounded(table[code := p], orig)
    requires code !in table && Known(table, orig, b)
    ensures Original(table[code := p], orig, b) == Original(table, orig, b)
    decreases if b in table then b + 1 else 0
  {
    if b in table {
      OriginalExtend(table, orig, code, p, table[b].first);
      OriginalExtend(table, orig, code, p, table[b].second);
    } else {
      assert b in orig;
    }
  }

  lemma {:induction false} OriginalAllExtend(table: map<byte, Pair>, orig: set<byte>, code: byte, p: Pair, s: seq<byte>)
    requires Grounded(table, orig) && Grounded(table[code := p], orig)
    requires code !in table && forall i :: 0 <= i < |s| ==> Known(table, orig, s[i])
    ensures OriginalAll(table[code := p], orig, s) == OriginalAll(table, orig, s)
    decreases |s|
  {
    if s != [] {
      OriginalExtend(table, orig, code, p, s[0]);
      OriginalAllExtend(table, orig, code, p, s[1..]);
    }
  }

  /** Replacing a pair by a code that the table maps to that pair leaves the expansion unchanged. */
  lemma {:induction false} OriginalAllReplace(table: map<byte, Pair>, orig: set<byte>, code: byte, p: Pair, s: seq<byte>)
    requires Grounded(table, orig) && code in table && table[code] == p
    ensures OriginalAll(table, orig, Replace(s, p, code)) == OriginalAll(table, orig, s)
    decreases |s|
  {
    if |s| < 2 {
    } else if s[0] == p.first && s[1] == p.second {
      OriginalAllReplace(table, orig, code, p, s[2..]);
      assert s[1..][1..] == s[2..];
      assert ([code] + Replace(s[2..], p, code))[1..] == Replace(s[2..], p, code);
    } else {
      OriginalAllReplace(table, orig, code, p, s[1..]);
      assert ([s[0]] + Replace(s[1..], p, code))[1..] == Replace(s[1..], p, code);
    }
  }

  /** Every byte of `s` is an original byte or a code of the table. */
  ghost predicate AllKnown(table: map<byte, Pair>, orig: set<byte>, s: seq<byte>) {
    forall i :: 0 <= i < |s| ==> Known(table, orig, s[i])
  }

  /** One substitution round keeps a table grounded and keeps the expansion of
      the working buffer, provided the code is fresh, larger than every code
      so far, and the pair occurs in the buffer. */
  lemma SubstitutionPreserves(table: map<byte, Pair>, orig: set<byte>, buf: seq<byte>, code: byte, p: Pair)
    requires Grounded(table, orig) && AllKnown(table, orig, buf)
    requires code !in orig && code !in table
    requires forall k :: k in table ==> k < code
    requires Occurs(buf, p)
    ensures Grounded(table[code := p], orig)
    ensures AllKnown(table[code := p], orig, Replace(buf, p, code))
    ensures OriginalAll(table[code := p], orig, Replace(buf, p, code)) == OriginalAll(table, orig, buf)
  {
    var t := table[code := p];
    var i :| 0 <= i < |buf| - 1 && buf[i] == p.first && buf[i + 1] == p.second;
    assert Known(table, orig, buf[i]) && Known(table, orig, buf[i + 1]);
    assert Rooted(t, orig, code, p.first) && Rooted(t, orig, code, p.second);
    assert Grounded(t, orig) by {
      forall k | k in t
        ensures Rooted(t, orig, k, t[k].first) && Rooted(t, orig, k, t[k].second)
      {
        if k != code {
          assert Rooted(table, orig, k, table[k].first);
          assert Rooted(table, orig, k, table[k].second);
        }
      }
    }
    var r := Replace(buf, p, code);
    ReplaceBytes(buf, p, code);
    forall j | 0 <= j < |r| ensures Known(t, orig, r[j]) {
      assert r[j] in r;
      if r[j] != code {
        var m :| 0 <= m < |buf| && buf[m] == r[j];
        assert Known(table, orig, buf[m]);
      }
    }
    OriginalAllReplace(t, orig, code, p, buf);
    OriginalAllExtend(table, orig, code, p, buf);
  }

  /* ---------------------------------------------------------------- */
  /* Code pools and key orders                                         */
  /* ---------------------------------------------------------------- */

  predicate Ascending(s: seq<byte>) {
    forall i, j :: 0 <= i < j < |s| ==> s[i] < s[j]
  }

  /** The byte values from `from` to 255, in ascending order, whose membership
      in `s` equals `keep`: `[c for c in range(from, 256) if (c in s) == keep]`. */
  function Select(s: set<byte>, keep: bool, from: nat): (r: seq<byte>)
    requires from <= 256
    ensures Ascending(r)
    ensures forall x: byte :: x in r <==> from <= x && (x in s) == keep
    ensures |r| <= 256 - from
    decreases 256 - from
  {
    if from == 256 then []
    else
      var rest := Select(s, keep, from + 1);
      if (from in s) == keep then
        assert forall x: byte :: x in [from as byte] + rest <==> x == from || x in rest;
        assert forall j :: 0 <= j < |rest| ==> rest[j] in rest;
        [from as byte] + rest
      else rest
  }

  /** The byte values absent from `present`: the pool of substitution codes. */
  function Absent(present: set<byte>): (r: seq<byte>)
    ensures Ascending(r)
    ensures forall x: byte :: x in r <==> x !in present
  {
    Select(present, false, 0)
  }

  /** With at least one byte present, at most 255 codes are available. */
  lemma {:induction false} SelectShorter(s: set<byte>, keep: bool, from: nat, x: byte)
    requires from <= x
    requires (x in s) != keep
    ensures |Select(s, keep, from)| <= 255 - from
    decreases 256 - from
  {
    if from < x {
      SelectShorter(s, keep, from + 1, x);
    }
  }

  lemma AbsentShorter(present: set<byte>, x: byte)
    requires x in present
    ensures |Absent(present)| <= 255
  {
    SelectShorter(present, false, 0, x);
  }

  lemma {:induction false} SelectAll(from: nat)
    requires from <= 256
    ensures |Select({}, false, from)| == 256 - from
    decreases 256 - from
  {
    if from < 256 {
      SelectAll(from + 1);
      assert Select({}, false, from) == [from as byte] + Select({}, false, from + 1);
    }
  }

  lemma AscendingDistinct(s: seq<byte>)
    requires Ascending(s)
    ensures Distinct(s)
  {
  }

  /** The table is grounded in the bytes of `text` and `buf` expands to `text`. */
  ghost predicate Expands(table: map<byte, Pair>, buf: seq<byte>, text: seq<byte>) {
    && Grounded(table, Elements(text))
    && AllKnown(table, Elements(text), buf)
    && OriginalAll(table, Elements(text), buf) == text
  }

  /** The keys of the table are exactly the codes taken so far from the front
      of the pool, and `avail` is what is left of it. */
  ghost predicate TakenFrom(table: map<byte, Pair>, avail: seq<byte>, pool: seq<byte>) {
    && |avail| <= |pool|
    && avail == pool[|pool| - |avail|..]
    && table.Keys == Elements(pool[..|pool| - |avail|])
  }

  lemma TakenStep(table: map<byte, Pair>, avail: seq<byte>, pool: seq<byte>, p: Pair)
    requires TakenFrom(table, avail, pool) && avail != [] && Ascending(pool)
    ensures avail[0] !in table && forall c :: c in table ==> c < avail[0]
    ensures TakenFrom(table[avail[0] := p], avail[1..], pool)
  {
    var m := |pool| - |avail|;
    var code := avail[0];
    assert code == pool[m];
    forall j | 0 <= j < m ensures pool[j] != code {
      assert pool[j] < pool[m];
    }
    assert code !in Elements(pool[..m]);
    forall c | c in table ensures c < code {
      var j :| 0 <= j < m && pool[j] == c;
    }
    assert pool[..m + 1] == pool[..m] + [code];
    assert Elements(pool[..m + 1]) == Elements(pool[..m]) + {code};
    assert avail[1..] == pool[m + 1..];
  }

  lemma ExpandsStep(table: map<byte, Pair>, buf: seq<byte>, text: seq<byte>, code: byte, p: Pair)
    requires Expands(table, buf, text)
    requires code !in text && code !in table && forall c :: c in table ==> c < code
    requires Occurs(buf, p)
    ensures Expands(table[code := p], Replace(buf, p, code), text)
  {
    SubstitutionPreserves(table, Elements(text), buf, code, p);
  }

  /** The keys of a table in ascending order. */
  function KeysAscending(table: map<byte, Pair>): (r: seq<byte>)
    ensures Ascending(r)
    ensures forall x: byte :: x in r <==> x in table
    ensures forall i :: 0 <= i < |r| ==> r[i] in table
  {
    Select(table.Keys, true, 0)
  }

  /* ---------------------------------------------------------------- */
  /* The container                                                     */
  /* ---------------------------------------------------------------- */

  datatype EncodeError =
    | HeaderOverflow   // `len(table).to_bytes(1)` with 256 entries: an OverflowError

  datatype DecodeError =
    | EmptyContainer   // `data[0]` of an empty container: an IndexError
    | TrailerTooShort  // fewer than 3N bytes after `data[-3*N:]`: an IndexError in the loop
    | NoEnd            // the expansion reaches a code again: a recursion that never ends

  /** The trailer: `key + value` (3 bytes) for each key in the given order. */
  function Trailer(table: map<byte, Pair>, keys: seq<byte>): (r: seq<byte>)
    requires forall i :: 0 <= i < |keys| ==> keys[i] in table
    ensures |r| == 3 * |keys|
    decreases |keys|
  {
    if keys == [] then []
    else
      var k := keys[|keys| - 1];
      Trailer(table, keys[..|keys| - 1]) + [k, table[k].first, table[k].second]
  }

  /** The container: one header byte `len(table)`, the payload, then the table entries. */
  function WriteContainer(table: map<byte, Pair>, payload: seq<byte>): (r: Result<seq<byte>, EncodeError>)
    ensures r.Err? <==> |table| > 255
    ensures r.Ok? ==> |r.value| == 1 + |payload| + 3 * |table|
    ensures r.Ok? ==> r.value[0] == |table|
    ensures r.Ok? ==> r.value[1..1 + |payload|] == payload
  {
    var keys := KeysAscending(table);
    KeysCount(table);
    if |table| > 255 then Err(HeaderOverflow)
    else
      var c := [|table| as byte] + payload + Trailer(table, keys);
      assert c[1..1 + |payload|] == payload;
      Ok(c)
  }

  lemma KeysCount(table: map<byte, Pair>)
    ensures |KeysAscending(table)| == |table|
    ensures Elements(KeysAscending(table)) == table.Keys
  {
    var keys := KeysAscending(table);
    AscendingDistinct(keys);
    DistinctCardinality(keys);
    assert forall x: byte :: x in keys <==> x in table;
    assert Elements(keys) == table.Keys;
    assert |table.Keys| == |table|;
  }

  /** The lookup table rebuilt from the first `g` 3-byte groups of a trailer,
      one group after another; a key that appears twice keeps its later pair. */
  function ReadTable(chunk: seq<byte>, g: nat): (m: map<byte, Pair>)
    requires 3 * g <= |chunk|
    ensures |m| <= g
    decreases g
  {
    if g == 0 then map[]
    else
      var i := 3 * g - 3;
      ReadTable(chunk, g - 1)[chunk[i] := Pair(chunk[i + 1], chunk[i + 2])]
  }

  /** The entries of `table` for the listed keys, added in list order. */
  function Restricted(table: map<byte, Pair>, keys: seq<byte>): map<byte, Pair>
    requires forall i :: 0 <= i < |keys| ==> keys[i] in table
    decreases |keys|
  {
    if keys == [] then map[]
    else
      var k := keys[|keys| - 1];
      Restricted(table, keys[..|keys| - 1])[k := table[k]]
  }

  /** The restriction holds exactly the listed keys, each with its entry in `table`. */
  lemma {:induction false} RestrictedEntries(table: map<byte, Pair>, keys: seq<byte>)
    requires forall i :: 0 <= i < |keys| ==> keys[i] in table
    ensures Restricted(table, keys).Keys == Elements(keys)
    ensures forall k :: k in Restricted(table, keys) ==> Restricted(table, keys)[k] == table[k]
    decreases |keys|
  {
    if keys != [] {
      var front := keys[..|keys| - 1];
      RestrictedEntries(table, front);
      assert Elements(keys) == Elements(front) + {keys[|keys| - 1]};
    }
  }

  /** Group `j` of the trailer is key `j` followed by its pair. */
  lemma {:induction false} TrailerAt(table: map<byte, Pair>, keys: seq<byte>, j: nat)
    requires forall i :: 0 <= i < |keys| ==> keys[i] in table
    requires j < |keys|
    ensures var t := Trailer(table, keys);
      t[3 * j] == keys[j] && t[3 * j + 1] == table[keys[j]].first && t[3 * j + 2] == table[keys[j]].second
    decreases |keys|
  {
    var front := keys[..|keys| - 1];
    if j < |front| {
      TrailerAt(table, front, j);
    }
  }

  lemma {:induction false} TrailerGroups(table: map<byte, Pair>, keys: seq<byte>, j: nat)
    requires forall i :: 0 <= i < |keys| ==> keys[i] in table
    requires j <= |keys|
    ensures ReadTable(Trailer(table, keys), j) == Restricted(table, keys[..j])
    decreases j
  {
    if j > 0 {
      TrailerGroups(table, keys, j - 1);
      TrailerRead(table, keys, j);
      RestrictedLast(table, keys, j);
    } else {
      assert keys[..0] == [];
    }
  }

  /** Reading one more group of the trailer adds the next key's entry. */
  lemma TrailerRead(table: map<byte, Pair>, keys: seq<byte>, j: nat)
    requires forall i :: 0 <= i < |keys| ==> keys[i] in table
    requires 0 < j <= |keys|
    ensures var t := Trailer(table, keys);
      ReadTable(t, j) == ReadTable(t, j - 1)[keys[j - 1] := table[keys[j - 1]]]
  {
    var t := Trailer(table, keys);
    TrailerAt(table, keys, j - 1);
    var i := 3 * (j - 1);
    assert 3 * j - 3 == i;
    assert t[i] == keys[j - 1] && Pair(t[i + 1], t[i + 2]) == table[keys[j - 1]];
  }

  /** The restriction to one more key adds that key's entry. */
  lemma RestrictedLast(table: map<byte, Pair>, keys: seq<byte>, j: nat)
    requires forall i :: 0 <= i < |keys| ==> keys[i] in table
    requires 0 < j <= |keys|
    ensures Restricted(table, keys[..j]) == Restricted(table, keys[..j - 1])[keys[j - 1] := table[keys[j - 1]]]
  {
    assert keys[..j][..j - 1] == keys[..j - 1];
  }

  /** Reading a trailer back gives the entries of the listed keys. */
  lemma ReadTrailer(table: map<byte, Pair>, keys: seq<byte>)
    requires forall i :: 0 <= i < |keys| ==> keys[i] in table
    ensures ReadTable(Trailer(table, keys), |keys|) == Restricted(table, keys)
  {
    TrailerGroups(table, keys, |keys|);
    assert keys[..|keys|] == keys;
  }

  /** `decompress` on the container bytes: the header gives N, the last 3N
      bytes are the table, and bytes 1 .. len - 3*len(table) - 1 are the payload. */
  function Decompress(data: seq<byte>): (r: Result<seq<byte>, DecodeError>)
    ensures data == [] ==> r == Err(EmptyContainer)
    ensures data != [] && 3 * (data[0] as int) > |data| ==> r == Err(TrailerTooShort)
  {
    if data == [] then Err(EmptyContainer)
    else if 3 * (data[0] as int) > |data| then Err(TrailerTooShort)
    else Unpacked(data, ReadTable(data[|data| - 3 * (data[0] as int)..], data[0] as int))
  }

  /** The second half of `decompress`: with the table read, expand bytes
      1 .. len - 3 * len(table) - 1. */
  function Unpacked(data: seq<byte>, table: map<byte, Pair>): (r: Result<seq<byte>, DecodeError>)
    ensures r.Err? ==> r.error == NoEnd
    ensures r.Ok? ==> |r.value| >= |data| - 3 * |table| - 1
    ensures table == map[] && data != [] ==> r == Ok(data[1..])
  {
    var dataLen := |data| - 3 * |table|;
    var payload := if dataLen <= 1 then [] else data[1..dataLen];
    assert table == map[] && data != [] ==> payload == data[1..];
    assert table == map[] ==> ExpandAll(table, payload) == Some(payload) by {
      if table == map[] { ExpandAllPlain(table, payload); }
    }
    match ExpandAll(table, payload)
    case Some(out) => Ok(out)
    case None => Err(NoEnd)
  }

  /** Reading the ascending trailer back gives the whole table. */
  lemma TrailerReadsBack(table: map<byte, Pair>)
    ensures var keys := KeysAscending(table); ReadTable(Trailer(table, keys), |keys|) == table
  {
    var keys := KeysAscending(table);
    KeysCount(table);
    ReadTrailer(table, keys);
    RestrictedEntries(table, keys);
    var m := Restricted(table, keys);
    assert m.Keys == table.Keys;
  }

  /** A container written from a table of at most 255 entries reads back to
      the same table and payload, so it decompresses to the expansion of the
      payload. */
  lemma ContainerRoundTrip(table: map<byte, Pair>, payload: seq<byte>, out: seq<byte>)
    requires |table| <= 255
    requires ExpandAll(table, payload) == Some(out)
    ensures WriteContainer(table, payload).Ok?
    ensures Decompress(WriteContainer(table, payload).value) == Ok(out)
  {
    var tr := Trailer(table, KeysAscending(table));
    KeysCount(table);
    TrailerReadsBack(table);
    var c := [|table| as byte] + payload + tr;
    assert WriteContainer(table, payload).value == c;
    assert |tr| == 3 * |table|;
    assert c[0] == |table|;
    assert c[|c| - 3 * |table|..] == tr;
    var dataLen := |c| - 3 * |table|;
    assert dataLen == 1 + |payload|;
    assert (if dataLen <= 1 then [] else c[1..dataLen]) == payload;
  }

  /** `__reconstruct_dict`: read N from the header, take `data[-3*N:]` and
      set one entry per 3-byte group. `data[-0:]` is the whole container, but
      then no group is read. */
  method ReconstructTable(data: seq<byte>) returns (r: Result<map<byte, Pair>, DecodeError>)
    ensures data == [] ==> r == Err(EmptyContainer)
    ensures data != [] && 3 * (data[0] as int) > |data| ==> r == Err(TrailerTooShort)
    ensures data != [] && 3 * (data[0] as int) <= |data| ==> r == Ok(ReadTable(data[|data| - 3 * (data[0] as int)..], data[0] as int))
  {
    if |data| == 0 {
      return Err(EmptyContainer);
    }
    var n := data[0] as int;
    var chunk := SliceFrom(data, -3 * n);
    TrailerSlice(data, n);
    var table: map<byte, Pair> := map[];
    var i := 0;
    ghost var g := 0;
    while i < 3 * n
      invariant i == 3 * g && g <= n && i <= |chunk|
      invariant table == ReadTable(chunk, g)
    {
      if i + 2 >= |chunk| {
        return Err(TrailerTooShort);
      }
      table := table[chunk[i] := Pair(chunk[i + 1], chunk[i + 2])];
      i := i + 3;
      g := g + 1;
    }
    if n == 0 {
      assert table == map[];
    } else {
      assert chunk == data[|data| - 3 * n..];
    }
    return Ok(table);
  }

  lemma TrailerSlice(data: seq<byte>, n: nat)
    ensures 0 < 3 * n <= |data| ==> SliceFrom(data, -3 * n) == data[|data| - 3 * n..]
    ensures n == 0 || 3 * n > |data| ==> SliceFrom(data, -3 * n) == data
  {
  }

  /** `decompress` on the container bytes: rebuild the table, then expand
      bytes 1 .. len - 3 * len(table) - 1 one by one and join the results. */
  method DecompressData(data: seq<byte>) returns (r: Result<seq<byte>, DecodeError>)
    ensures r == Decompress(data)
  {
    var t := ReconstructTable(data);
    if t.Err? {
      return Err(t.error);
    }
    r := Unpack(data, t.value);
  }

  /** The payload part of `decompress`. */
  method Unpack(data: seq<byte>, table: map<byte, Pair>) returns (r: Result<seq<byte>, DecodeError>)
    ensures r == Unpacked(data, table)
  {
    var dataLen := |data| - 3 * |table|;
    var payload := if dataLen <= 1 then [] else data[1..dataLen];
    var x := ExpandBytes(table, payload);
    if x.None? {
      return Err(NoEnd);
    }
    return Ok(x.value);
  }

  /** The loop of `decompress`: expand the payload byte by byte, appending
      each expansion; a byte that does not expand stops it. */
  method ExpandBytes(table: map<byte, Pair>, payload: seq<byte>) returns (r: Option<seq<byte>>)
    ensures r == ExpandAll(table, payload)
  {
    var out: seq<byte> := [];
    var i := 0;
    while i < |payload|
      invariant 0 <= i <= |payload|
      invariant ExpandAll(table, payload[..i]) == Some(out)
    {
      var x := Expand(table, payload[i], MaxDepth);
      ExpandPrefixStep(table, payload, i, out);
      if x.None? {
        ExpandPrefixFails(table, payload, i + 1);
        return None;
      }
      out := out + x.value;
      i := i + 1;
    }
    assert payload[..i] == payload;
    return Some(out);
  }

  /** One more byte of a prefix: its expansion is appended, or the prefix fails. */
  lemma ExpandPrefixStep(table: map<byte, Pair>, s: seq<byte>, i: nat, out: seq<byte>)
    requires i < |s| && ExpandAll(table, s[..i]) == Some(out)
    ensures ExpandAll(table, s[..i + 1]) ==
      match Expand(table, s[i], MaxDepth)
      case Some(x) => Some(out + x)
      case None => None
  {
    ExpandAllSingle(table, s[i]);
    ExpandAllSplit(table, s[..i], [s[i]]);
    assert s[..i + 1] == s[..i] + [s[i]];
  }

  /** A prefix that fails to expand makes the whole sequence fail. */
  lemma ExpandPrefixFails(table: map<byte, Pair>, s: seq<byte>, i: nat)
    requires i <= |s| && ExpandAll(table, s[..i]) == None
    ensures ExpandAll(table, s) == None
  {
    ExpandAllSplit(table, s[..i], s[i..]);
    assert s == s[..i] + s[i..];
  }
}
