/** Values and text helpers shared by every module of the model: bytes,
    Option/Result, Python-style slicing, decimal rendering of integers,
    ASCII lower-casing and list flattening. */
module Common {

  /** A byte value, as produced by `int.to_bytes(1, "big")` and read back by indexing `bytes`. */
  type byte = x: int | 0 <= x < 256

  datatype Option<T> = None | Some(value: T)

  datatype Result<T, E> = Ok(value: T) | Err(error: E)

  /** Python's normalisation of a slice bound `i` against a length `n`:
      negative bounds count from the end, and out-of-range bounds are clamped. */
  function SliceBound(i: int, n: nat): (r: nat)
    ensures r <= n
    ensures 0 <= i <= n ==> r == i
    ensures i < 0 && i + n >= 0 ==> r == n + i
    ensures i + n < 0 ==> r == 0
    ensures i > n ==> r == n
  {
    if i < 0 then (if i + n < 0 then 0 else i + n) else if i > n then n else i
  }

  /** Python's `s[a:b]` for a step of 1. */
  function Slice<T>(s: seq<T>, a: int, b: int): (r: seq<T>)
    ensures |r| <= |s|
    ensures 0 <= a <= b <= |s| ==> r == s[a..b]
  {
    var i := SliceBound(a, |s|);
    var j := SliceBound(b, |s|);
    if i <= j then s[i..j] else []
  }

  /** `s[a:]` in Python. */
  function SliceFrom<T>(s: seq<T>, a: int): (r: seq<T>)
    ensures 0 <= a <= |s| ==> r == s[a..]
  {
    s[SliceBound(a, |s|)..]
  }

  /** The concatenation of a list of lists, as `"".join(parts)` or
      `[x for part in parts for x in part]` computes it. */
  function Flatten<T>(parts: seq<seq<T>>): seq<T>
  {
    if parts == [] then [] else Flatten(parts[..|parts| - 1]) + parts[|parts| - 1]
  }

  /** Appending a joined pair is appending its two parts in turn. */
  lemma Regroup<T>(s: seq<T>, a: seq<T>, b: seq<T>)
    ensures s + (a + b) == s + a + b
  {
  }

  lemma FlattenAppend<T>(parts: seq<seq<T>>, last: seq<T>)
    ensures Flatten(parts + [last]) == Flatten(parts) + last
  {
    assert (parts + [last])[..|parts|] == parts;
  }

  lemma {:induction false} FlattenConcat<T>(a: seq<seq<T>>, b: seq<seq<T>>)
    ensures Flatten(a + b) == Flatten(a) + Flatten(b)
    decreases |b|
  {
    if b == [] {
      assert a + b == a;
    } else {
      var front := b[..|b| - 1];
      assert a + b == (a + front) + [b[|b| - 1]];
      FlattenAppend(a + front, b[|b| - 1]);
      FlattenConcat(a, front);
      FlattenAppend(front, b[|b| - 1]);
      assert b == front + [b[|b| - 1]];
    }
  }

  lemma {:induction false} FlattenLength<T>(parts: seq<seq<T>>, bound: nat)
    requires forall i :: 0 <= i < |parts| ==> |parts[i]| <= bound
    ensures |Flatten(parts)| <= bound * |parts|
    decreases |parts|
  {
    if parts != [] {
      FlattenLength(parts[..|parts| - 1], bound);
    }
  }

  /** A decimal digit character. */
  function DigitChar(d: nat): (c: char)
    requires d < 10
    ensures '0' <= c <= '9'
  {
    (('0' as int) + d) as char
  }

  predicate IsDigit(c: char) {
    '0' <= c <= '9'
  }

  predicate AllDigits(s: string) {
    forall i :: 0 <= i < |s| ==> IsDigit(s[i])
  }

  /** `str(n)` for a non-negative integer: its decimal digits, no leading zero. */
  function NatToString(n: nat): (s: string)
    ensures |s| >= 1 && AllDigits(s)
    ensures n < 10 <==> |s| == 1
    decreases n
  {
    if n < 10 then [DigitChar(n)] else NatToString(n / 10) + [DigitChar(n % 10)]
  }

  /** `str(i)` for any integer. */
  function IntToString(i: int): (s: string)
    ensures |s| >= 1
    ensures i >= 0 ==> s == NatToString(i)
    ensures i < 0 ==> s == "-" + NatToString(-i)
  {
    if i < 0 then "-" + NatToString(-i) else NatToString(i)
  }

  /** The value of a string of decimal digits (leading zeros allowed). */
  function DigitsValue(s: string): nat
    requires AllDigits(s)
  {
    if s == [] then 0 else DigitsValue(s[..|s| - 1]) * 10 + (s[|s| - 1] as int - '0' as int)
  }

  /** `int(s)` restricted to what this model needs: a non-empty string of
      decimal digits; anything else is the ValueError of `int`. */
  function ParseNat(s: string): (r: Option<nat>)
    ensures r.Some? <==> |s| >= 1 && AllDigits(s)
  {
    if |s| >= 1 && AllDigits(s) then Some(DigitsValue(s)) else None
  }

  lemma {:induction false} NatToStringValue(n: nat)
    ensures DigitsValue(NatToString(n)) == n
    decreases n
  {
    if n >= 10 {
      var s := NatToString(n);
      NatToStringValue(n / 10);
      assert s[..|s| - 1] == NatToString(n / 10);
    }
  }

  function Zeros(k: nat): (z: string)
    ensures |z| == k && AllDigits(z)
    ensures forall i :: 0 <= i < k ==> z[i] == '0'
  {
    if k == 0 then [] else Zeros(k - 1) + "0"
  }

  /** Leading zeros do not change the value of a digit string. */
  lemma {:induction false} ZerosValue(k: nat, s: string)
    requires AllDigits(s)
    ensures AllDigits(Zeros(k) + s)
    ensures DigitsValue(Zeros(k) + s) == DigitsValue(s)
    decreases |s|, k
  {
    var zs := Zeros(k) + s;
    if s == [] {
      assert zs == Zeros(k);
      if k > 0 {
        assert zs[..|zs| - 1] == Zeros(k - 1) + [];
        ZerosValue(k - 1, []);
        assert Zeros(k - 1) + [] == Zeros(k - 1);
      }
    } else {
      var front := s[..|s| - 1];
      assert zs[..|zs| - 1] == Zeros(k) + front;
      ZerosValue(k, front);
    }
  }

  /** ASCII case folding; see README for what is not covered. */
  function LowerChar(c: char): (r: char)
    ensures 'A' <= c <= 'Z' ==> r == (c as int + 32) as char
    ensures !('A' <= c <= 'Z') ==> r == c
  {
    if 'A' <= c <= 'Z' then (c as int + 32) as char else c
  }

  function Lower(s: string): (r: string)
    ensures |r| == |s|
    ensures forall i :: 0 <= i < |s| ==> r[i] == LowerChar(s[i])
  {
    if s == [] then [] else [LowerChar(s[0])] + Lower(s[1..])
  }

  /** A sequence without repeated elements. */
  predicate Distinct<T(==)>(s: seq<T>) {
    forall i, j :: 0 <= i < j < |s| ==> s[i] != s[j]
  }

  /** The elements of a sequence, as `set(s)` collects them. */
  function Elements<T>(s: seq<T>): set<T>
  {
    set x | x in s
  }

  lemma {:induction false} DistinctCardinality<T>(s: seq<T>)
    requires Distinct(s)
    ensures |Elements(s)| == |s|
    decreases |s|
  {
    if s != [] {
      var front := s[..|s| - 1];
      DistinctCardinality(front);
      assert Elements(s) == Elements(front) + {s[|s| - 1]};
      assert s[|s| - 1] !in Elements(front);
    }
  }

  lemma {:induction false} SetOfSeqCardinality<T>(s: seq<T>)
    ensures |Elements(s)| <= |s|
    decreases |s|
  {
    if s != [] {
      var front := s[..|s| - 1];
      SetOfSeqCardinality(front);
      assert Elements(s) == Elements(front) + {s[|s| - 1]};
    }
  }

  /** The position nearest the end (the top of a stack) at which `x` occurs. */
  function LastIndex<T(==)>(s: seq<T>, x: T): (j: nat)
    requires x in s
    ensures j < |s| && s[j] == x
    ensures forall t :: j < t < |s| ==> s[t] != x
    decreases |s|
  {
    if s[|s| - 1] == x then |s| - 1
    else
      assert x in s[..|s| - 1];
      LastIndex(s[..|s| - 1], x)
  }

  /** `' ' * n`: no spaces when `n` is not positive. */
  function Spaces(n: int): (r: string)
    ensures |r| == if n > 0 then n else 0
    ensures forall k :: 0 <= k < |r| ==> r[k] == ' '
  {
    if n > 0 then seq(n, _ => ' ') else ""
  }

  /** `s.replace(c, '')` for every `c` in `cs`. */
  function Without(s: string, cs: set<char>): (r: string)
    ensures |r| <= |s|
    ensures forall i :: 0 <= i < |r| ==> r[i] !in cs
    ensures forall c :: c in s && c !in cs ==> c in r
    decreases |s|
  {
    if s == [] then ""
    else
      var front := Without(s[..|s| - 1], cs);
      var c := s[|s| - 1];
      assert forall d :: d in s ==> d in s[..|s| - 1] || d == c;
      if c in cs then front else front + [c]
  }

  /** One character is kept exactly when it is not removed. */
  lemma WithoutOneChar(c: char, cs: set<char>)
    ensures Without([c], cs) == if c in cs then "" else [c]
  {
    assert [c][..0] == [];
  }

  /** Removing characters distributes over concatenation. */
  lemma {:induction false} WithoutConcat(a: string, b: string, cs: set<char>)
    ensures Without(a + b, cs) == Without(a, cs) + Without(b, cs)
    decreases |b|
  {
    if b == [] {
      assert a + b == a;
    } else {
      var front := b[..|b| - 1];
      WithoutConcat(a, front, cs);
      assert (a + b)[..|a + b| - 1] == a + front;
      assert b[..|b| - 1] == front;
    }
  }
}
