/** The dictionary of `customedDS/newCustom.py`: a table of `size` buckets
    indexed by `hash(key) % size`, with an entry counter kept beside the
    buckets and a text rendering. Python's built-in `hash` is salted per
    process for strings, so the model takes it as a parameter. */
module NewCustom {
  import opened Common
  import opened Buckets

  /** The keys and values the rendering tells apart: strings and integers. */
  datatype Scalar = Text(s: string) | Int(i: int)

  type Positive = n: nat | n > 0 witness 1

  /** `'{}'.format(x)`. */
  function Format(x: Scalar): string {
    match x
    case Text(s) => s
    case Int(i) => IntToString(i)
  }

  /** How `__str__` writes a key or a value: a string between single quotes
      (nothing inside is escaped), anything else as `format` writes it. */
  function Quoted(x: Scalar): (r: string)
    ensures |r| >= 1
    ensures x.Text? ==> r == "'" + x.s + "'"
    ensures x.Int? ==> r == Format(x)
  {
    if x.Text? then "'" + x.s + "'" else Format(x)
  }

  /** `'{}: {}'.format(key_str, value_str)`. */
  function EntryText(e: (Scalar, Scalar)): string {
    Quoted(e.0) + ": " + Quoted(e.1)
  }

  function EntryTexts(items: seq<(Scalar, Scalar)>): (r: seq<string>)
    ensures |r| == |items| && forall i :: 0 <= i < |items| ==> r[i] == EntryText(items[i])
  {
    seq(|items|, i requires 0 <= i < |items| => EntryText(items[i]))
  }

  /** `sep.join(parts)`. */
  function Join(sep: string, parts: seq<string>): string
    decreases |parts|
  {
    if parts == [] then ""
    else if |parts| == 1 then parts[0]
    else Join(sep, parts[..|parts| - 1]) + sep + parts[|parts| - 1]
  }

  /** The text of `__str__` for entries listed in `items`. */
  function Render(items: seq<(Scalar, Scalar)>): string {
    "{" + Join(", ", EntryTexts(items)) + "}"
  }

  /** A join is empty only when there is nothing to join or the one part is empty. */
  lemma {:induction false} JoinEmpty(sep: string, parts: seq<string>)
    requires |sep| >= 1
    ensures Join(sep, parts) == "" <==> parts == [] || (|parts| == 1 && parts[0] == "")
    decreases |parts|
  {
    if |parts| > 1 {
      assert |Join(sep, parts)| >= |sep|;
    }
  }

  /** The rendering is braced, and it is exactly `{}` when there are no entries. */
  lemma RenderShape(items: seq<(Scalar, Scalar)>)
    ensures |Render(items)| >= 2
    ensures Render(items)[0] == '{' && Render(items)[|Render(items)| - 1] == '}'
    ensures Render(items) == "{}" <==> items == []
  {
    var parts := EntryTexts(items);
    JoinEmpty(", ", parts);
    if |parts| == 1 {
      assert |parts[0]| >= 2;
    }
    if Render(items) == "{}" {
      assert |Join(", ", parts)| == 0;
    }
  }

  /** The error `__getitem__` and `__delitem__` raise for an absent key. */
  datatype KeyError = KeyError(message: string)

  /** `KeyError('Key {} dont exist'.format(key))`. */
  function Missing(key: Scalar): KeyError {
    KeyError("Key " + Format(key) + " dont exist")
  }

  /** The buckets after `__delitem__` takes `key` out of bucket `h`: the
      entry the scan stops at is removed, and nothing changes when the scan
      runs off the bucket. */
  function Dropped(bs: seq<seq<(Scalar, Scalar)>>, h: nat, key: Scalar): (r: seq<seq<(Scalar, Scalar)>>)
    requires h < |bs|
    ensures |r| == |bs| && forall g :: 0 <= g < |bs| && g != h ==> r[g] == bs[g]
  {
    var b := bs[h];
    var i := Position(b, key);
    if i < |b| then bs[h := b[..i] + b[i + 1..]] else bs
  }

  /** When the scan finds `key` in bucket `h`, that bucket loses the entry. */
  lemma DroppedAt(bs: seq<seq<(Scalar, Scalar)>>, h: nat, key: Scalar)
    requires h < |bs| && Position(bs[h], key) < |bs[h]|
    ensures var i := Position(bs[h], key); Dropped(bs, h, key) == bs[h := bs[h][..i] + bs[h][i + 1..]]
  {
  }

  /** Taking a present key out of its bucket leaves buckets that represent
      the mapping without it. */
  lemma DropStep(bs: seq<seq<(Scalar, Scalar)>>, m: map<Scalar, Scalar>, hash: Scalar -> nat, key: Scalar)
    requires Represents(bs, m, hash)
    requires hash(key) < |bs| && Position(bs[hash(key)], key) < |bs[hash(key)]|
    ensures key in m
    ensures var b := bs[hash(key)]; var i := Position(b, key);
      Represents(bs[hash(key) := b[..i] + b[i + 1..]], m - {key}, hash)
  {
    var h := hash(key);
    var bucket := bs[h];
    var i := Position(bucket, key);
    var b := bucket[..i] + bucket[i + 1..];
    RepresentsFind(bs, m, hash, key);
    assert Homed(bucket, h, hash);
    Unlinked(bucket, key, hash, h);
    RepresentsDrop(bs, m, hash, key, b);
  }

  /** Removing the entry the scan stops at from one bucket: its keys stay
      distinct and in the bucket's hash slot, and only `key` is gone. */
  lemma Unlinked(bucket: seq<(Scalar, Scalar)>, key: Scalar, hash: Scalar -> nat, h: nat)
    requires DistinctKeys(bucket) && Position(bucket, key) < |bucket|
    requires forall j :: 0 <= j < |bucket| ==> hash(bucket[j].0) == h
    ensures var i := Position(bucket, key); var b := bucket[..i] + bucket[i + 1..];
      DistinctKeys(b) && (forall j :: 0 <= j < |b| ==> hash(b[j].0) == h)
      && forall q :: Lookup(b, q) == if q == key then None else Lookup(bucket, q)
  {
    var i := Position(bucket, key);
    var b := bucket[..i] + bucket[i + 1..];
    assert bucket[i].0 == key;
    LookupDistinct(bucket, key);
    LookupRemove(bucket, i);
    assert forall q :: Lookup(b, q) == if q == key then None else Lookup(bucket, q);
    forall j | 0 <= j < |b|
      ensures hash(b[j].0) == h
    {
      if j < i {
        assert b[j] == bucket[j];
      } else {
        assert b[j] == bucket[j + 1];
      }
    }
  }

  /** Writing `key` into its bucket, in place or appended, leaves buckets
      that represent the updated mapping; the mapping grows by one entry
      exactly when the scan ran off the bucket. */
  lemma StoreStep(bs: seq<seq<(Scalar, Scalar)>>, m: map<Scalar, Scalar>, hash: Scalar -> nat, key: Scalar, value: Scalar)
    requires Represents(bs, m, hash) && hash(key) < |bs|
    ensures Position(bs[hash(key)], key) < |bs[hash(key)]| <==> key in m
    ensures |m[key := value]| == |m| + if key in m then 0 else 1
    ensures Represents(bs[hash(key) := Stored(bs[hash(key)], key, value)], m[key := value], hash)
  {
    var h := hash(key);
    var bucket := bs[h];
    RepresentsFind(bs, m, hash, key);
    StoreCount(m, key, value);
    assert Homed(bucket, h, hash);
    Upserted(bucket, key, value, hash, h);
    RepresentsStore(bs, m, hash, key, value, Stored(bucket, key, value));
  }

  /** Mapping a key grows a map by one entry exactly when the key was new. */
  lemma StoreCount(m: map<Scalar, Scalar>, key: Scalar, value: Scalar)
    ensures |m[key := value]| == |m| + if key in m then 0 else 1
  {
    if key in m {
      assert m[key := value].Keys == m.Keys;
    } else {
      assert m[key := value].Keys == m.Keys + {key};
    }
  }

  /** Storing `key` in one bucket: its keys stay distinct and in the
      bucket's hash slot, and only `key`'s value changes. */
  lemma Upserted(bucket: seq<(Scalar, Scalar)>, key: Scalar, value: Scalar, hash: Scalar -> nat, h: nat)
    requires DistinctKeys(bucket) && hash(key) == h
    requires forall j :: 0 <= j < |bucket| ==> hash(bucket[j].0) == h
    ensures var b := Stored(bucket, key, value);
      DistinctKeys(b) && (forall j :: 0 <= j < |b| ==> hash(b[j].0) == h)
      && forall q :: Lookup(b, q) == if q == key then Some(value) else Lookup(bucket, q)
  {
    var i := Position(bucket, key);
    LookupDistinct(bucket, key);
    if i < |bucket| {
      assert bucket[i].0 == key;
      LookupUpdate(bucket, i, value);
      assert bucket[i := (key, value)] == bucket[i := (bucket[i].0, value)];
    } else {
      LookupAppend(bucket, key, value);
    }
  }

  /** A map without one of its keys has one entry less. */
  lemma RemoveCount(m: map<Scalar, Scalar>, key: Scalar)
    requires key in m
    ensures |m - {key}| == |m| - 1
  {
    assert (m - {key}).Keys == m.Keys - {key};
  }

  class Dictionary {
    const size: Positive
    /** Python's `hash`, fixed for the life of the process. */
    const hasher: Scalar -> int
    const storage: array<seq<(Scalar, Scalar)>>
    var length: int
    /** The mapping the buckets represent. */
    ghost var contents: map<Scalar, Scalar>

    /** `hash(key) % self.size`: never negative, since the modulus is positive. */
    function Slot(key: Scalar): (h: nat)
      ensures h < size
    {
      hasher(key) % size
    }

    /** The buckets represent `contents` and the counter counts its keys. */
    ghost predicate Valid()
      reads this, storage
    {
      storage.Length == size && length == |contents| && Represents(storage[..], contents, Slot)
    }

    /** `Dictionary(size)`: `size` empty buckets. */
    constructor(size: Positive, hasher: Scalar -> int)
      ensures Valid() && fresh(storage)
      ensures this.size == size && this.hasher == hasher
      ensures contents == map[]
    {
      this.size := size;
      this.hasher := hasher;
      storage := new seq<(Scalar, Scalar)>[size](_ => []);
      length := 0;
      contents := map[];
    }

    /** `d[key] = value`: overwrites the entry in place, or appends one and counts it. */
    method SetItem(key: Scalar, value: Scalar)
      requires Valid()
      modifies this, storage
      ensures Valid()
      ensures contents == old(contents)[key := value]
      ensures var h := Slot(key); storage[..] == old(storage[..])[h := Stored(old(storage[h]), key, value)]
      ensures length == old(length) + if key in old(contents) then 0 else 1
    {
      var h := hasher(key) % size;
      var bucket := storage[h];
      var i := Scan(bucket, key);
      Put(key, value, i);
    }

    /** The write of `__setitem__` once the scan has stopped at `i`. */
    method Put(key: Scalar, value: Scalar, i: nat)
      requires Valid() && i == Position(storage[Slot(key)], key)
      modifies this, storage
      ensures Valid()
      ensures contents == old(contents)[key := value]
      ensures var h := Slot(key); storage[..] == old(storage[..])[h := Stored(old(storage[h]), key, value)]
      ensures length == old(length) + if key in old(contents) then 0 else 1
    {
      var h := Slot(key);
      var bucket := storage[h];
      ghost var before := storage[..];
      StoreStep(before, contents, Slot, key, value);
      if i < |bucket| {
        storage[h] := bucket[i := (key, value)];
      } else {
        storage[h] := bucket + [(key, value)];
        length := length + 1;
      }
      assert storage[..] == before[h := Stored(bucket, key, value)];
      contents := contents[key := value];
    }

    /** `d[key]`: the value, or KeyError. */
    method GetItem(key: Scalar) returns (r: Result<Scalar, KeyError>)
      requires Valid()
      ensures r == if key in contents then Ok(contents[key]) else Err(Missing(key))
    {
      var h := hasher(key) % size;
      var bucket := storage[h];
      RepresentsFind(storage[..], contents, Slot, key);
      var i := Scan(bucket, key);
      r := if i < |bucket| then Ok(bucket[i].1) else Err(Missing(key));
    }

    /** `del d[key]`: takes the entry out and uncounts it, or KeyError. */
    method DelItem(key: Scalar) returns (err: Option<KeyError>)
      requires Valid()
      modifies this, storage
      ensures Valid()
      ensures err == if key in old(contents) then None else Some(Missing(key))
      ensures contents == old(contents) - {key}
      ensures length == old(length) - if key in old(contents) then 1 else 0
      ensures storage[..] == Dropped(old(storage[..]), Slot(key), key)
    {
      var h, i := Locate(key);
      if i < |storage[h]| {
        DroppedAt(storage[..], h, key);
        Unlink(key, i);
        err := None;
      } else {
        assert contents - {key} == contents;
        err := Some(Missing(key));
      }
    }

    /** The bucket of `key` and the position of the scan's stop in it. */
    method Locate(key: Scalar) returns (h: nat, i: nat)
      requires Valid()
      ensures h == Slot(key) && i == Position(storage[h], key)
      ensures i < |storage[h]| <==> key in contents
    {
      h := hasher(key) % size;
      RepresentsFind(storage[..], contents, Slot, key);
      i := Scan(storage[h], key);
    }

    /** The removal of `__delitem__` once the scan has found the key at `i`. */
    method Unlink(key: Scalar, i: nat)
      requires Valid() && i == Position(storage[Slot(key)], key) && i < |storage[Slot(key)]|
      modifies this, storage
      ensures Valid()
      ensures key in old(contents) && contents == old(contents) - {key}
      ensures length == old(length) - 1
      ensures var b := old(storage[Slot(key)]); storage[..] == old(storage[..])[Slot(key) := b[..i] + b[i + 1..]]
    {
      var h := Slot(key);
      var bucket := storage[h];
      var rest := bucket[..i] + bucket[i + 1..];
      ghost var before := storage[..];
      DropStep(before, contents, Slot, key);
      RemoveCount(contents, key);
      storage[h] := rest;
      assert storage[..] == before[h := rest];
      length := length - 1;
      contents := contents - {key};
    }

    /** `key in d`. */
    method Contains(key: Scalar) returns (b: bool)
      requires Valid()
      ensures b <==> key in contents
    {
      var h := hasher(key) % size;
      var bucket := storage[h];
      RepresentsFind(storage[..], contents, Slot, key);
      var i := Scan(bucket, key);
      b := i < |bucket|;
    }

    /** `get(key)`: the value, or None where `__getitem__` raises KeyError. */
    method Get(key: Scalar) returns (r: Option<Scalar>)
      requires Valid()
      ensures r == if key in contents then Some(contents[key]) else None
    {
      var v := GetItem(key);
      r := if v.Ok? then Some(v.value) else None;
    }

    /** `__len__`: the counter. */
    function Len(): int
      reads this
    {
      length
    }

    /** `items()` (`__iterate_kv`): the entries bucket by bucket, each bucket
        in insertion order; empty buckets contribute nothing. */
    function Items(): seq<(Scalar, Scalar)>
      reads this, storage
    {
      Flatten(storage[..])
    }

    /** `keys()` and `__iter__`. */
    function Keys(): seq<Scalar>
      reads this, storage
    {
      KeysOf(Items())
    }

    /** `values()`. */
    function Values(): seq<Scalar>
      reads this, storage
    {
      ValuesOf(Items())
    }

    /** The counter always equals the number of listed entries; the listings
        show every key exactly once, each with its own value. */
    lemma ItemsAgree()
      requires Valid()
      ensures Distinct(Keys())
      ensures Elements(Keys()) == contents.Keys
      ensures forall i :: 0 <= i < |Items()| ==> Items()[i].0 in contents && contents[Items()[i].0] == Items()[i].1
      ensures |Keys()| == |Values()| == |Items()| == Len() == |contents|
    {
      TableAgree(storage[..], contents, Slot);
    }

    /** `__str__` and `__repr__`: the entry texts gathered bucket by bucket,
        joined by ", " and braced. */
    method ToString() returns (s: string)
      ensures s == Render(Items())
    {
      var res: seq<string> := [];
      for h := 0 to storage.Length
        invariant res == EntryTexts(Flatten(storage[..h]))
      {
        res := AppendTexts(res, storage[h]);
        assert storage[..h + 1] == storage[..h] + [storage[h]];
        FlattenAppend(storage[..h], storage[h]);
        EntryTextsAppend(Flatten(storage[..h]), storage[h]);
      }
      assert storage[..storage.Length] == storage[..];
      s := "{" + Join(", ", res) + "}";
    }
  }

  /** The inner loop of `__str__`: one text per entry of a bucket, in order. */
  method AppendTexts(res: seq<string>, bucket: seq<(Scalar, Scalar)>) returns (res': seq<string>)
    ensures res' == res + EntryTexts(bucket)
  {
    res' := res;
    for j := 0 to |bucket|
      invariant res' == res + EntryTexts(bucket[..j])
    {
      assert EntryTexts(bucket[..j + 1]) == EntryTexts(bucket[..j]) + [EntryText(bucket[j])];
      res' := res' + [EntryText(bucket[j])];
    }
    assert bucket[..|bucket|] == bucket;
  }

  lemma EntryTextsAppend(a: seq<(Scalar, Scalar)>, b: seq<(Scalar, Scalar)>)
    ensures EntryTexts(a + b) == EntryTexts(a) + EntryTexts(b)
  {
  }
}
