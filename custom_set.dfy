/** The set of `customedDS/CustomSet.py`: a fixed table of 4999 buckets,
    each a list of elements, indexed by a hash that accepts strings, byte
    strings and integers. The class keeps the set it represents as a ghost
    field and proves that every operation agrees with it. */
module CustomSets {
  import opened Common
  import opened Buckets

  /** The number of buckets, fixed at construction. */
  const SetSize: nat := 4999

  /** `hash_function`: the base-31 polynomial over the code points of a
      string or the values of a byte string, or the integer itself, reduced
      modulo the table size. */
  function SetHash(k: Key): (h: nat)
    ensures h < SetSize
  {
    match k
    case Str(s) => PolyHash(Ords(s), SetSize)
    case Bytes(b) => PolyHash(b, SetSize)
    case Num(n) => n % SetSize
  }

  /** Bucket list `bs` represents the set `s`: each element sits in the
      bucket it hashes to, no bucket holds an element twice, and an element is
      in its bucket exactly when it is in the set. */
  ghost predicate Holds(bs: seq<seq<Key>>, s: set<Key>) {
    |bs| == SetSize
    && (forall h, i :: 0 <= h < SetSize && 0 <= i < |bs[h]| ==> SetHash(bs[h][i]) == h)
    && (forall h :: 0 <= h < SetSize ==> Distinct(bs[h]))
    && (forall k :: k in bs[SetHash(k)] <==> k in s)
  }

  /** Replacing the bucket of `e` by one holding, of the elements that hash
      there, exactly those of `s'`, keeps the representation when `s'` differs
      from `s` at most in `e`. */
  lemma HoldsStore(bs: seq<seq<Key>>, s: set<Key>, e: Key, b: seq<Key>, s': set<Key>)
    requires Holds(bs, s)
    requires Distinct(b) && forall i :: 0 <= i < |b| ==> SetHash(b[i]) == SetHash(e)
    requires forall q :: SetHash(q) == SetHash(e) ==> (q in b <==> q in s')
    requires forall q :: q != e ==> (q in s' <==> q in s)
    ensures Holds(bs[SetHash(e) := b], s')
  {
    var h := SetHash(e);
    var bs' := bs[h := b];
    forall k ensures k in bs'[SetHash(k)] <==> k in s' {
      if SetHash(k) == h {
        assert bs'[SetHash(k)] == b;
      } else {
        assert bs'[SetHash(k)] == bs[SetHash(k)];
        assert k != e;
      }
    }
  }

  class CustomSet {
    const size: nat := SetSize
    const buckets: array<seq<Key>>
    /** The set the buckets represent. */
    ghost var contents: set<Key>

    ghost predicate Valid()
      reads this, buckets
    {
      Holds(buckets[..], contents)
    }

    /** `CustomSet(elements)`: an empty table, then `add` of every element in order. */
    constructor(elements: seq<Key>)
      ensures Valid() && fresh(buckets)
      ensures contents == Elements(elements)
    {
      buckets := new seq<Key>[SetSize](_ => []);
      contents := {};
      new;
      Update(elements);
    }

    method HashFunction(key: Key) returns (h: nat)
      ensures h == SetHash(key)
    {
      match key
      case Str(s) => h := PolyHashLoop(Ords(s), size);
      case Bytes(b) => h := PolyHashLoop(b, size);
      case Num(n) => h := n % size;
    }

    /** `add`: appends the element to its bucket unless it is there already. */
    method Add(e: Key)
      requires Valid()
      modifies this, buckets
      ensures Valid()
      ensures contents == old(contents) + {e}
      ensures var h := SetHash(e); var b := old(buckets[h]);
        buckets[..] == old(buckets[..])[h := if e in b then b else b + [e]]
      ensures Len() == old(Len()) + if e in old(contents) then 0 else 1
    {
      var h := HashFunction(e);
      var bucket := buckets[h];
      if e !in bucket {
        Store(e, bucket + [e], contents + {e});
      } else {
        MembersAgree();
      }
    }

    /** `update`: `add` of every element of `elems`, in order. */
    method Update(elems: seq<Key>)
      requires Valid()
      modifies this, buckets
      ensures Valid()
      ensures contents == old(contents) + Elements(elems)
    {
      for i := 0 to |elems|
        invariant Valid()
        invariant contents == old(contents) + Elements(elems[..i])
      {
        assert Elements(elems[..i + 1]) == Elements(elems[..i]) + {elems[i]} by {
          assert Elements(elems[..i + 1]) == Elements(elems[..i]) + {elems[i]} by {
          assert elems[..i + 1] == elems[..i] + [elems[i]];
        }
        }
        Add(elems[i]);
      }
      assert elems[..|elems|] == elems;
    }

    /** `remove`: takes the element out of its bucket; an absent element is ignored. */
    method Remove(e: Key)
      requires Valid()
      modifies this, buckets
      ensures Valid()
      ensures contents == old(contents) - {e}
      ensures var h := SetHash(e); var b := old(buckets[h]);
        e in b ==> exists i :: 0 <= i < |b| && b[i] == e && buckets[..] == old(buckets[..])[h := b[..i] + b[i + 1..]]
      ensures e !in old(buckets[SetHash(e)]) ==> buckets[..] == old(buckets[..])
      ensures Len() == old(Len()) - if e in old(contents) then 1 else 0
    {
      var h := HashFunction(e);
      var bucket := buckets[h];
      if e in bucket {
        var i :| 0 <= i < |bucket| && bucket[i] == e;
        var b := bucket[..i] + bucket[i + 1..];
        RemoveAt(bucket, i);
        assert forall j :: 0 <= j < |b| ==> b[j] in bucket;
        Store(e, b, contents - {e});
      } else {
        MembersAgree();
      }
    }

    /** Puts the new bucket of `e` in place. */
    method Store(e: Key, b: seq<Key>, ghost s': set<Key>)
      requires Valid()
      requires Distinct(b) && forall i :: 0 <= i < |b| ==> SetHash(b[i]) == SetHash(e)
      requires forall q :: SetHash(q) == SetHash(e) ==> (q in b <==> q in s')
      requires forall q :: q != e ==> (q in s' <==> q in contents)
      modifies this, buckets
      ensures Valid()
      ensures contents == s'
      ensures buckets[..] == old(buckets[..])[SetHash(e) := b]
      ensures Len() == old(Len()) + |s'| - |old(contents)|
    {
      MembersAgree();
      HoldsStore(buckets[..], contents, e, b, s');
      buckets[SetHash(e)] := b;
      contents := s';
      MembersAgree();
    }

    /** `element in s`. */
    method Contains(e: Key) returns (b: bool)
      requires Valid()
      ensures b <==> e in contents
    {
      var h := HashFunction(e);
      b := e in buckets[h];
    }

    /** `__iter__`: the elements bucket by bucket, each bucket in insertion order. */
    function Members(): seq<Key>
      reads this, buckets
    {
      Flatten(buckets[..])
    }

    /** `__len__`: the sum of the bucket lengths. */
    function Len(): nat
      reads this, buckets
    {
      SumLengths(buckets[..])
    }

    /** Iteration shows every element of the set exactly once, and the
        length is the number of elements. */
    lemma MembersAgree()
      requires Valid()
      ensures Distinct(Members())
      ensures Elements(Members()) == contents
      ensures |Members()| == Len() == |contents|
    {
      var bs := buckets[..];
      TableDistinct(bs, SetHash);
      FlattenSize(bs);
      forall k ensures k in Members() <==> k in contents {
      }
      DistinctCardinality(Members());
    }

    /** `intersection`: the elements of `other`, in its order, that are also
        in this set, gathered and put into a new set. */
    method Intersection(other: CustomSet) returns (r: CustomSet)
      requires Valid() && other.Valid()
      ensures fresh(r) && fresh(r.buckets) && r.Valid()
      ensures r.contents == contents * other.contents
    {
      var elems := other.Members();
      other.MembersAgree();
      var common: seq<Key> := [];
      for i := 0 to |elems|
        invariant Elements(common) == Elements(elems[..i]) * contents
      {
        assert Elements(elems[..i + 1]) == Elements(elems[..i]) + {elems[i]} by {
          assert elems[..i + 1] == elems[..i] + [elems[i]];
        }
        var found := Contains(elems[i]);
        if found {
          assert Elements(common + [elems[i]]) == Elements(common) + {elems[i]};
          common := common + [elems[i]];
        }
      }
      assert elems[..|elems|] == elems;
      r := new CustomSet(common);
    }

    /** `difference`: the elements of this set, in its order, that are not in
        `other`, gathered and put into a new set. */
    method Difference(other: CustomSet) returns (r: CustomSet)
      requires Valid() && other.Valid()
      ensures fresh(r) && fresh(r.buckets) && r.Valid()
      ensures r.contents == contents - other.contents
    {
      var elems := Members();
      MembersAgree();
      var unique: seq<Key> := [];
      for i := 0 to |elems|
        invariant Elements(unique) == Elements(elems[..i]) - other.contents
      {
        assert Elements(elems[..i + 1]) == Elements(elems[..i]) + {elems[i]} by {
          assert elems[..i + 1] == elems[..i] + [elems[i]];
        }
        var found := other.Contains(elems[i]);
        if !found {
          assert Elements(unique + [elems[i]]) == Elements(unique) + {elems[i]};
          unique := unique + [elems[i]];
        }
      }
      assert elems[..|elems|] == elems;
      r := new CustomSet(unique);
    }
  }
}
