/** What the three chained hash tables of the repository share: their key
    values, the base-31 string hash, the scan of one bucket, and what listing
    the buckets one after another gives. */
module Buckets {
  import opened Common

  /** A key as the hash tables see it: a text string, a byte string or an integer. */
  datatype Key = Str(s: string) | Bytes(b: seq<byte>) | Num(n: int)

  /** The hash loop `h = (h * 31 + u) % m` over `units` from the left,
      starting from 0. Python's `%` by a positive modulus is never negative,
      like Dafny's. */
  function PolyHash(units: seq<int>, m: nat): (h: nat)
    requires m > 0
    ensures h < m
    decreases |units|
  {
    if units == [] then 0 else (PolyHash(units[..|units| - 1], m) * 31 + units[|units| - 1]) % m
  }

  /** The accumulator loop itself. */
  method PolyHashLoop(units: seq<int>, m: nat) returns (h: nat)
    requires m > 0
    ensures h == PolyHash(units, m)
  {
    h := 0;
    var i := 0;
    while i < |units|
      invariant 0 <= i <= |units|
      invariant h == PolyHash(units[..i], m)
    {
      assert units[..i + 1][..i] == units[..i];
      h := (h * 31 + units[i]) % m;
      i := i + 1;
    }
    assert units[..i] == units;
  }

  /** `ord(c)` for every character of `s`. */
  function Ords(s: string): (r: seq<int>)
    ensures |r| == |s|
  {
    seq(|s|, i requires 0 <= i < |s| => s[i] as int)
  }

  /* ---------------------------------------------------------------- */
  /* One bucket of key-value entries                                   */
  /* ---------------------------------------------------------------- */

  function KeysOf<K, V>(b: seq<(K, V)>): (r: seq<K>)
    ensures |r| == |b| && forall i :: 0 <= i < |b| ==> r[i] == b[i].0
  {
    seq(|b|, i requires 0 <= i < |b| => b[i].0)
  }

  function ValuesOf<K, V>(b: seq<(K, V)>): (r: seq<V>)
    ensures |r| == |b| && forall i :: 0 <= i < |b| ==> r[i] == b[i].1
  {
    seq(|b|, i requires 0 <= i < |b| => b[i].1)
  }

  /** The scan `for k, v in bucket: if k == key: return v`. */
  function Lookup<K(==), V>(b: seq<(K, V)>, k: K): Option<V>
    decreases |b|
  {
    if b == [] then None else if b[0].0 == k then Some(b[0].1) else Lookup(b[1..], k)
  }

  /** Where the scan for `k` stops: its first entry, or `|b|` when there is none. */
  function Position<K(==), V>(b: seq<(K, V)>, k: K): (i: nat)
    ensures i <= |b|
    ensures i < |b| ==> b[i].0 == k
    ensures forall j :: 0 <= j < i ==> b[j].0 != k
    decreases |b|
  {
    if b == [] then 0 else if b[0].0 == k then 0 else Position(b[1..], k) + 1
  }

  /** The loop `for i, (k, v) in enumerate(bucket): if k == key: ...` that
      every lookup of the tables runs, stopping at the first match. */
  method Scan<K(==), V>(b: seq<(K, V)>, k: K) returns (i: nat)
    ensures i == Position(b, k)
  {
    i := 0;
    while i < |b| && b[i].0 != k
      invariant i <= |b|
      invariant forall j :: 0 <= j < i ==> b[j].0 != k
    {
      i := i + 1;
    }
  }

  /** The scan finds `k` exactly when `k` is a key of the bucket, and then
      returns the value of its first entry. */
  lemma {:induction false} LookupPosition<K, V>(b: seq<(K, V)>, k: K)
    ensures Lookup(b, k) == if Position(b, k) < |b| then Some(b[Position(b, k)].1) else None
    ensures Position(b, k) < |b| <==> k in KeysOf(b)
    decreases |b|
  {
    if b != [] && b[0].0 != k {
      LookupPosition(b[1..], k);
      assert KeysOf(b) == [b[0].0] + KeysOf(b[1..]);
    } else if b != [] {
      assert KeysOf(b)[0] == k;
    }
  }

  /** A bucket in which no key appears twice. */
  ghost predicate DistinctKeys<K, V>(b: seq<(K, V)>) {
    forall i, j :: 0 <= i < j < |b| ==> b[i].0 != b[j].0
  }

  lemma DistinctKeysOf<K, V>(b: seq<(K, V)>)
    ensures DistinctKeys(b) <==> Distinct(KeysOf(b))
  {
  }

  /** In a bucket without repeated keys the scan returns each entry's own
      value, and nothing for a key the bucket does not hold. */
  lemma {:induction false} LookupDistinct<K, V>(b: seq<(K, V)>, q: K)
    requires DistinctKeys(b)
    ensures (forall j :: 0 <= j < |b| ==> b[j].0 != q) ==> Lookup(b, q) == None
    ensures forall j :: 0 <= j < |b| && b[j].0 == q ==> Lookup(b, q) == Some(b[j].1)
    decreases |b|
  {
    if b != [] {
      LookupDistinct(b[1..], q);
      forall j | 0 < j < |b| ensures b[j] == b[1..][j - 1] {
      }
    }
  }

  /** The bucket after storing `value` for `k`: the entry of `k` overwritten
      in place, or a new entry appended when there is none. */
  function Stored<K(==), V>(b: seq<(K, V)>, k: K, value: V): seq<(K, V)>
  {
    var i := Position(b, k);
    if i < |b| then b[i := (k, value)] else b + [(k, value)]
  }

  /** Overwriting the value of entry `i` in place (`bucket[i] = (key, value)`). */
  lemma LookupUpdate<K, V>(b: seq<(K, V)>, i: nat, v: V)
    requires DistinctKeys(b) && i < |b|
    ensures DistinctKeys(b[i := (b[i].0, v)])
    ensures forall q :: Lookup(b[i := (b[i].0, v)], q) == if q == b[i].0 then Some(v) else Lookup(b, q)
  {
    var b' := b[i := (b[i].0, v)];
    forall q ensures Lookup(b', q) == if q == b[i].0 then Some(v) else Lookup(b, q) {
      LookupDistinct(b, q);
      LookupDistinct(b', q);
      if j :| 0 <= j < |b| && b[j].0 == q {
        assert b'[j].0 == q;
      }
    }
  }

  /** Appending an entry for a key the bucket does not hold (`bucket.append`). */
  lemma LookupAppend<K, V>(b: seq<(K, V)>, k: K, v: V)
    requires DistinctKeys(b) && forall j :: 0 <= j < |b| ==> b[j].0 != k
    ensures DistinctKeys(b + [(k, v)])
    ensures forall q :: Lookup(b + [(k, v)], q) == if q == k then Some(v) else Lookup(b, q)
  {
    var b' := b + [(k, v)];
    forall q ensures Lookup(b', q) == if q == k then Some(v) else Lookup(b, q) {
      LookupDistinct(b, q);
      LookupDistinct(b', q);
      assert b'[|b|].0 == k;
      if j :| 0 <= j < |b| && b[j].0 == q {
        assert b'[j] == b[j];
      }
    }
  }

  /** Removing entry `i` (`bucket.remove(entry)`, which takes out the first equal entry). */
  lemma LookupRemove<K, V>(b: seq<(K, V)>, i: nat)
    requires DistinctKeys(b) && i < |b|
    ensures DistinctKeys(b[..i] + b[i + 1..])
    ensures forall q :: Lookup(b[..i] + b[i + 1..], q) == if q == b[i].0 then None else Lookup(b, q)
  {
    var b' := b[..i] + b[i + 1..];
    assert forall j :: 0 <= j < |b'| ==> b'[j] == b[if j < i then j else j + 1];
    forall q ensures Lookup(b', q) == if q == b[i].0 then None else Lookup(b, q) {
      LookupDistinct(b, q);
      LookupDistinct(b', q);
      if j :| 0 <= j < |b'| && b'[j].0 == q {
        assert b[if j < i then j else j + 1].0 == q;
      }
      forall j | 0 <= j < |b| && j != i && b[j].0 == q ensures b'[if j < i then j else j - 1].0 == q {
      }
    }
  }

  /** Removing position `i` of a bucket of elements without repeats
      (`bucket.remove(element)`) leaves exactly the other elements, still
      without repeats. */
  lemma RemoveAt<T>(b: seq<T>, i: nat)
    requires Distinct(b) && i < |b|
    ensures Distinct(b[..i] + b[i + 1..])
    ensures forall q :: q in b[..i] + b[i + 1..] <==> q in b && q != b[i]
  {
    var b' := b[..i] + b[i + 1..];
    assert forall j :: 0 <= j < |b'| ==> b'[j] == b[if j < i then j else j + 1];
    forall q | q in b && q != b[i] ensures q in b' {
      var j :| 0 <= j < |b| && b[j] == q;
      assert b'[if j < i then j else j - 1] == q;
    }
  }

  /* ---------------------------------------------------------------- */
  /* All buckets in order                                              */
  /* ---------------------------------------------------------------- */

  /** `sum(len(bucket) for bucket in buckets)`. */
  function SumLengths<T>(bs: seq<seq<T>>): nat
    decreases |bs|
  {
    if bs == [] then 0 else SumLengths(bs[..|bs| - 1]) + |bs[|bs| - 1]|
  }

  lemma {:induction false} FlattenSize<T>(bs: seq<seq<T>>)
    ensures |Flatten(bs)| == SumLengths(bs)
    decreases |bs|
  {
    if bs != [] {
      FlattenSize(bs[..|bs| - 1]);
    }
  }

  /** Every listed element comes from one of the buckets. */
  lemma {:induction false} FlattenMember<T>(bs: seq<seq<T>>, x: T)
    requires x in Flatten(bs)
    ensures exists h :: 0 <= h < |bs| && x in bs[h]
    decreases |bs|
  {
    var front := bs[..|bs| - 1];
    if x !in bs[|bs| - 1] {
      FlattenMember(front, x);
      var h :| 0 <= h < |front| && x in front[h];
      assert bs[h] == front[h];
    }
  }

  /** Buckets whose elements all hash to their own bucket and are distinct
      within it list every element once, and list exactly the elements found
      in their own bucket. */
  lemma {:induction false} TableDistinct<K>(bs: seq<seq<K>>, hash: K -> nat)
    requires forall h, i :: 0 <= h < |bs| && 0 <= i < |bs[h]| ==> hash(bs[h][i]) == h
    requires forall h :: 0 <= h < |bs| ==> Distinct(bs[h])
    ensures Distinct(Flatten(bs))
    ensures forall x :: x in Flatten(bs) ==> hash(x) < |bs| && x in bs[hash(x)]
    ensures forall h, i :: 0 <= h < |bs| && 0 <= i < |bs[h]| ==> bs[h][i] in Flatten(bs)
    decreases |bs|
  {
    if bs != [] {
      var n := |bs| - 1;
      var front := bs[..n];
      var last := bs[n];
      TableDistinct(front, hash);
      var f := Flatten(front);
      assert Flatten(bs) == f + last;
      forall i, j | 0 <= i < j < |f + last| ensures (f + last)[i] != (f + last)[j] {
        if i < |f| && j >= |f| {
          assert f[i] in Flatten(front);
          assert hash(f[i]) < |front|;
          var jj := j - |f|;
          assert hash(last[jj]) == n;
        } else if i >= |f| {
          assert (f + last)[i] == last[i - |f|] && (f + last)[j] == last[j - |f|];
        } else {
          assert (f + last)[i] == f[i] && (f + last)[j] == f[j];
        }
      }
      forall x | x in f + last ensures hash(x) < |bs| && x in bs[hash(x)] {
        if x in last {
          var k :| 0 <= k < |last| && last[k] == x;
          assert hash(last[k]) == n;
        } else {
          assert x in f;
          assert bs[hash(x)] == front[hash(x)];
        }
      }
      forall h, i | 0 <= h < |bs| && 0 <= i < |bs[h]| ensures bs[h][i] in f + last {
        if h < n {
          assert bs[h][i] == front[h][i];
        } else {
          assert bs[h][i] == last[i];
        }
      }
    }
  }

  /** The keys of the listed entries are the listed keys of each bucket. */
  function KeyBuckets<K, V>(bs: seq<seq<(K, V)>>): (r: seq<seq<K>>)
    ensures |r| == |bs| && forall h :: 0 <= h < |bs| ==> r[h] == KeysOf(bs[h])
  {
    seq(|bs|, h requires 0 <= h < |bs| => KeysOf(bs[h]))
  }

  lemma {:induction false} FlattenKeys<K, V>(bs: seq<seq<(K, V)>>)
    ensures KeysOf(Flatten(bs)) == Flatten(KeyBuckets(bs))
    decreases |bs|
  {
    if bs != [] {
      var front := bs[..|bs| - 1];
      FlattenKeys(front);
      assert KeyBuckets(bs)[..|bs| - 1] == KeyBuckets(front);
      assert KeysOf(Flatten(front) + bs[|bs| - 1]) == KeysOf(Flatten(front)) + KeysOf(bs[|bs| - 1]);
    }
  }

  /* ---------------------------------------------------------------- */
  /* A chained table of key-value entries                              */
  /* ---------------------------------------------------------------- */

  /** Bucket list `bs` represents the mapping `m` under `hash`: every key
      hashes to a bucket, each entry sits in the bucket its key hashes to, no
      bucket holds a key twice, and scanning a key's bucket finds exactly its
      value. */
  ghost predicate Represents<K(!new), V>(bs: seq<seq<(K, V)>>, m: map<K, V>, hash: K -> nat) {
    (forall k :: hash(k) < |bs|)
    && (forall h {:trigger Homed(bs[h], h, hash)} :: 0 <= h < |bs| ==> Homed(bs[h], h, hash))
    && (forall k {:trigger Lookup(bs[hash(k)], k)} :: Lookup(bs[hash(k)], k) == if k in m then Some(m[k]) else None)
  }

  /** Bucket `b` belongs in slot `h`: no key twice, and every key hashes to `h`. */
  ghost predicate Homed<K, V>(b: seq<(K, V)>, h: nat, hash: K -> nat) {
    DistinctKeys(b) && forall i :: 0 <= i < |b| ==> hash(b[i].0) == h
  }

  /** The scan of a key's bucket stops on an entry exactly when the key is
      mapped, and that entry carries the key's value. */
  lemma RepresentsFind<K(!new), V>(bs: seq<seq<(K, V)>>, m: map<K, V>, hash: K -> nat, key: K)
    requires Represents(bs, m, hash)
    ensures hash(key) < |bs|
    ensures var b := bs[hash(key)]; var i := Position(b, key);
      (i < |b| <==> key in m) && (i < |b| ==> b[i].1 == m[key])
  {
    var b := bs[hash(key)];
    assert Homed(b, hash(key), hash);
    LookupDistinct(b, key);
  }

  /** Replacing the bucket of `key` by a bucket `b` whose entries all hash
      there keeps a representation, of the mapping `m'` that `b` answers for
      the keys of that bucket and that agrees with `m` on every other key. */
  lemma RepresentsReplace<K(!new), V>(bs: seq<seq<(K, V)>>, m: map<K, V>, hash: K -> nat, key: K, b: seq<(K, V)>, m': map<K, V>)
    requires Represents(bs, m, hash)
    requires DistinctKeys(b) && forall i :: 0 <= i < |b| ==> hash(b[i].0) == hash(key)
    requires forall q :: hash(q) == hash(key) ==> Lookup(b, q) == if q in m' then Some(m'[q]) else None
    requires forall q :: hash(q) != hash(key) ==> (q in m' <==> q in m) && (q in m ==> m'[q] == m[q])
    ensures Represents(bs[hash(key) := b], m', hash)
  {
    var h := hash(key);
    var bs': seq<seq<(K, V)>> := bs[h := b];
    forall g | 0 <= g < |bs'| ensures Homed(bs'[g], g, hash) {
      if g != h {
        assert bs'[g] == bs[g];
      }
    }
    forall k ensures Lookup(bs'[hash(k)], k) == if k in m' then Some(m'[k]) else None {
      if hash(k) == h {
        assert bs'[hash(k)] == b;
      } else {
        assert bs'[hash(k)] == bs[hash(k)];
      }
    }
  }

  /** Writing `value` for `key` in its bucket. */
  lemma RepresentsStore<K(!new), V>(bs: seq<seq<(K, V)>>, m: map<K, V>, hash: K -> nat, key: K, value: V, b: seq<(K, V)>)
    requires Represents(bs, m, hash)
    requires DistinctKeys(b) && forall i :: 0 <= i < |b| ==> hash(b[i].0) == hash(key)
    requires forall q :: Lookup(b, q) == if q == key then Some(value) else Lookup(bs[hash(key)], q)
    ensures Represents(bs[hash(key) := b], m[key := value], hash)
  {
    RepresentsReplace(bs, m, hash, key, b, m[key := value]);
  }

  /** Taking `key` out of its bucket. */
  lemma RepresentsDrop<K(!new), V>(bs: seq<seq<(K, V)>>, m: map<K, V>, hash: K -> nat, key: K, b: seq<(K, V)>)
    requires Represents(bs, m, hash)
    requires DistinctKeys(b) && forall i :: 0 <= i < |b| ==> hash(b[i].0) == hash(key)
    requires forall q :: Lookup(b, q) == if q == key then None else Lookup(bs[hash(key)], q)
    ensures Represents(bs[hash(key) := b], m - {key}, hash)
  {
    RepresentsReplace(bs, m, hash, key, b, m - {key});
  }

  /** Listing the buckets of a represented mapping shows each of its keys
      exactly once, each with its own value, and as many entries as keys. */
  lemma TableAgree<K(!new), V>(bs: seq<seq<(K, V)>>, m: map<K, V>, hash: K -> nat)
    requires Represents(bs, m, hash)
    ensures Distinct(KeysOf(Flatten(bs)))
    ensures Elements(KeysOf(Flatten(bs))) == m.Keys
    ensures forall i :: 0 <= i < |Flatten(bs)| ==> Flatten(bs)[i].0 in m && m[Flatten(bs)[i].0] == Flatten(bs)[i].1
    ensures |Flatten(bs)| == SumLengths(bs) == |m|
  {
    var ks := KeyBuckets(bs);
    var items := Flatten(bs);
    forall h | 0 <= h < |ks| ensures Distinct(ks[h]) && forall i :: 0 <= i < |ks[h]| ==> hash(ks[h][i]) == h {
      assert Homed(bs[h], h, hash);
      DistinctKeysOf(bs[h]);
    }
    TableDistinct(ks, hash);
    FlattenKeys(bs);
    FlattenSize(bs);
    forall k ensures k in KeysOf(items) <==> k in m {
      var b := bs[hash(k)];
      LookupDistinct(b, k);
      assert k in KeysOf(b) <==> k in KeysOf(items);
    }
    TableValues(bs, m, hash);
    DistinctCardinality(KeysOf(items));
  }

  /** Every listed entry carries its key's value. */
  lemma TableValues<K(!new), V>(bs: seq<seq<(K, V)>>, m: map<K, V>, hash: K -> nat)
    requires Represents(bs, m, hash)
    ensures forall i :: 0 <= i < |Flatten(bs)| ==> Flatten(bs)[i].0 in m && m[Flatten(bs)[i].0] == Flatten(bs)[i].1
  {
    var items := Flatten(bs);
    forall i | 0 <= i < |items| ensures items[i].0 in m && m[items[i].0] == items[i].1 {
      var e := items[i];
      FlattenMember(bs, e);
      var h :| 0 <= h < |bs| && e in bs[h];
      var j :| 0 <= j < |bs[h]| && bs[h][j] == e;
      assert Homed(bs[h], h, hash);
      LookupDistinct(bs[h], e.0);
    }
  }
}
