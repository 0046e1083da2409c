/** The dictionary of `customedDS/CustomDict.py`: a fixed table of 100
    buckets, each a list of key-value entries, indexed by a hash of the key.
    The class keeps the mapping it represents as a ghost field and proves that
    every operation agrees with it. */
module CustomDicts {
  import opened Common
  import opened Buckets

  /** The keys the hash function accepts: strings and integers. A byte
      string reaches `key % self.size`, which raises TypeError. */
  type DictKey = k: Key | !k.Bytes? witness Num(0)

  /** The number of buckets, fixed at construction. */
  const Size: nat := 100

  /** `hash_function`: the base-31 polynomial over the code points of a
      string, or the integer itself, reduced modulo the table size. */
  function DictHash(k: DictKey): (h: nat)
    ensures h < Size
  {
    match k
    case Str(s) => PolyHash(Ords(s), Size)
    case Num(n) => n % Size
  }

  class CustomDict<V> {
    const size: nat := Size
    const buckets: array<seq<(DictKey, V)>>
    /** The mapping the buckets represent. */
    ghost var contents: map<DictKey, V>

    /** The 100 buckets represent `contents` under the table's hash. */
    ghost predicate Valid()
      reads this, buckets
    {
      buckets.Length == Size && Represents(buckets[..], contents, DictHash)
    }

    constructor()
      ensures Valid() && fresh(buckets)
      ensures contents == map[]
    {
      buckets := new seq<(DictKey, V)>[Size](_ => []);
      contents := map[];
    }

    method HashFunction(key: DictKey) returns (h: nat)
      ensures h == DictHash(key)
    {
      match key
      case Str(s) => h := PolyHashLoop(Ords(s), size);
      case Num(n) => h := n % size;
    }

    /** Overwrites the entry of `key` in its bucket, or appends one. */
    method Set(key: DictKey, value: V)
      requires Valid()
      modifies this, buckets
      ensures Valid()
      ensures contents == old(contents)[key := value]
      ensures var h := DictHash(key); buckets[..] == old(buckets[..])[h := Stored(old(buckets[h]), key, value)]
      ensures Len() == old(Len()) + if key in old(contents) then 0 else 1
    {
      var h := HashFunction(key);
      var bucket := buckets[h];
      var i := Scan(bucket, key);
      Put(key, value, i);
    }

    /** The write of `set` once the scan has stopped at `i`. */
    method Put(key: DictKey, value: V, i: nat)
      requires Valid() && i == Position(buckets[DictHash(key)], key)
      modifies this, buckets
      ensures Valid()
      ensures contents == old(contents)[key := value]
      ensures var h := DictHash(key); buckets[..] == old(buckets[..])[h := Stored(old(buckets[h]), key, value)]
      ensures Len() == old(Len()) + if key in old(contents) then 0 else 1
    {
      ItemsAgree();
      var h := DictHash(key);
      var bucket := buckets[h];
      assert Homed(bucket, h, DictHash);
      LookupDistinct(bucket, key);
      var b;
      if i < |bucket| {
        LookupUpdate(bucket, i, value);
        b := bucket[i := (key, value)];
      } else {
        LookupAppend(bucket, key, value);
        b := bucket + [(key, value)];
      }
      RepresentsStore(buckets[..], contents, DictHash, key, value, b);
      buckets[h] := b;
      contents := contents[key := value];
      ItemsAgree();
    }

    /** `get(key, default)`: the stored value, or `default` when the key is absent. */
    method Get(key: DictKey, default: Option<V>) returns (r: Option<V>)
      requires Valid()
      ensures r == if key in contents then Some(contents[key]) else default
    {
      var h := HashFunction(key);
      var bucket := buckets[h];
      RepresentsFind(buckets[..], contents, DictHash, key);
      var i := Scan(bucket, key);
      r := if i < |bucket| then Some(bucket[i].1) else default;
    }

    /** `key in d`. */
    method Contains(key: DictKey) returns (b: bool)
      requires Valid()
      ensures b <==> key in contents
    {
      var h := HashFunction(key);
      var bucket := buckets[h];
      RepresentsFind(buckets[..], contents, DictHash, key);
      var i := Scan(bucket, key);
      b := i < |bucket|;
    }

    /** `items()`: the entries bucket by bucket, each bucket in insertion order. */
    function Items(): seq<(DictKey, V)>
      reads this, buckets
    {
      Flatten(buckets[..])
    }

    /** `Keys()` and `__iter__`: the keys in the order of `items()`. */
    function Keys(): seq<DictKey>
      reads this, buckets
    {
      KeysOf(Items())
    }

    /** `Values()`: the values in the order of `items()`. */
    function Values(): seq<V>
      reads this, buckets
    {
      ValuesOf(Items())
    }

    /** `__len__`: the sum of the bucket lengths. */
    function Len(): nat
      reads this, buckets
    {
      SumLengths(buckets[..])
    }

    /** The listings show every key of the mapping exactly once, each with
        its own value, and the length is the number of keys. */
    lemma ItemsAgree()
      requires Valid()
      ensures Distinct(Keys())
      ensures Elements(Keys()) == contents.Keys
      ensures forall i :: 0 <= i < |Items()| ==> Items()[i].0 in contents && contents[Items()[i].0] == Items()[i].1
      ensures |Keys()| == |Values()| == |Items()| == Len() == |contents|
    {
      TableAgree(buckets[..], contents, DictHash);
    }
  }
}
