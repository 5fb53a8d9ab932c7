/**
  `HashSet`: a set stored in a separately chained hash table that doubles
  its array whenever the load factor would exceed 0.8.

  The array `table` holds one chain per bucket; `capacity` is its length;
  `hash` is the hash function supplied at construction. The ghost field
  `Contents` is the set the table represents.
 */
module HashTable {
  import opened Buckets

  /** The capacity of a freshly constructed set. */
  const DefaultCapacity: nat := 10

  class HashSet<T(==)> {
    const hash: T -> nat
    var table: array<Chain<T>>
    var capacity: nat
    ghost var Contents: set<T>

    /**
      The structural invariant: the capacity is the array length and at
      least the default, every entry sits in the bucket its hash selects
      under the current capacity (and records that bucket as its key), no
      chain holds an element twice, and the chains together hold `Contents`.
     */
    ghost predicate Sound()
      reads this, table
    {
      && capacity == table.Length
      && capacity >= DefaultCapacity
      && WellFormed(table[..], hash)
      && Contents == AllWords(table[..])
    }

    /** The object invariant between operations: `Sound` and a load factor of at most 0.8. */
    ghost predicate Valid()
      reads this, table
    {
      Sound() && 5 * |Contents| <= 4 * capacity
    }

    /** An empty set of the default capacity that hashes with `hashFunction`. */
    constructor (hashFunction: T -> nat)
      ensures Valid() && fresh(table)
      ensures hash == hashFunction && capacity == DefaultCapacity && Contents == {}
      ensures forall i :: 0 <= i < table.Length ==> table[i] == []
    {
      hash := hashFunction;
      capacity := DefaultCapacity;
      var t := InitTable(DefaultCapacity);
      table := t;
      Contents := {};
      new;
      EmptyTableEmpty(table[..], hash);
    }

    /** A new array of `cap` empty chains. */
    static method InitTable(cap: nat) returns (t: array<Chain<T>>)
      ensures fresh(t) && t.Length == cap
      ensures forall i :: 0 <= i < cap ==> t[i] == []
    {
      t := new Chain<T>[cap];
      for i := 0 to cap
        invariant forall q :: 0 <= q < i ==> t[q] == []
      {
        t[i] := [];
      }
    }

    /**
      Adds `e`. Re-adding a stored element changes nothing. When the
      insertion makes the load factor exceed 0.8, the table is rebuilt with
      twice the capacity and every element is put in the bucket its hash
      selects under the new capacity.
     */
    method Add(e: T)
      requires Valid()
      modifies this, table
      ensures Valid()
      ensures Contents == old(Contents) + {e}
      ensures e in old(Contents) ==>
        capacity == old(capacity) && table == old(table) && table[..] == old(table[..])
      ensures capacity == if 5 * |Contents| > 4 * old(capacity) then 2 * old(capacity) else old(capacity)
      ensures capacity != old(capacity) ==> fresh(table)
      ensures capacity == old(capacity) ==> table == old(table) && table[..] == TableInsert(old(table[..]), hash, e)
      ensures 5 * |Contents| <= 4 * capacity
    {
      Link(e);
      var n := Size();
      if 5 * n > 4 * capacity {
        Grow();
      }
    }

    /** The insertion step of `add`: links `e` into its bucket, before any resize. */
    method Link(e: T)
      requires Sound()
      modifies this, table
      ensures Sound() && Contents == old(Contents) + {e}
      ensures table == old(table) && capacity == old(capacity)
      ensures table[..] == TableInsert(old(table[..]), hash, e)
      ensures e in old(Contents) ==> table[..] == old(table[..])
    {
      TableInsertWellFormed(table[..], hash, e);
      if e in Contents {
        TableInsertPresent(table[..], hash, e);
      }
      AddNode(e, table, capacity);
      Contents := Contents + {e};
    }

    /**
      The resize pass of `add`: a new array of twice the capacity into which
      every element is linked again, in the bucket its hash selects under
      the new capacity; the new array and capacity then replace the old.
     */
    method Grow()
      requires Sound()
      modifies this
      ensures Sound() && fresh(table)
      ensures Contents == old(Contents) && capacity == 2 * old(capacity)
    {
      var newCap := capacity * 2;
      var ht := Rehash(table, newCap);
      capacity := newCap;
      table := ht;
    }

    /** A fresh array of `newCap` chains holding the elements of `src`, each in the bucket of its hash. */
    method Rehash(src: array<Chain<T>>, newCap: nat) returns (ht: array<Chain<T>>)
      requires newCap > 0
      requires WellFormed(src[..], hash)
      ensures fresh(ht) && ht.Length == newCap
      ensures WellFormed(ht[..], hash)
      ensures AllWords(ht[..]) == AllWords(src[..])
    {
      ht := InitTable(newCap);
      EmptyTableEmpty(ht[..], hash);
      for j := 0 to src.Length
        invariant WellFormed(ht[..], hash)
        invariant AllWords(ht[..]) == AllWords(src[..j])
      {
        RelinkChain(src[j], ht);
        assert src[..j + 1][..j] == src[..j];
      }
      assert src[..src.Length] == src[..];
    }

    /** One step of the resize pass: links every element of `entry` into `ht`. */
    method RelinkChain(entry: Chain<T>, ht: array<Chain<T>>)
      requires WellFormed(ht[..], hash)
      modifies ht
      ensures ht[..] == Relinked(old(ht[..]), hash, entry)
      ensures WellFormed(ht[..], hash)
      ensures AllWords(ht[..]) == old(AllWords(ht[..])) + Words(entry)
    {
      ghost var start := ht[..];
      var k := 0;
      while k < |entry|
        invariant 0 <= k <= |entry|
        invariant ht[..] == Relinked(start, hash, entry[..k])
      {
        RelinkedWellFormed(start, hash, entry[..k]);
        AddNode(entry[k].word, ht, ht.Length);
        assert entry[..k + 1][..k] == entry[..k];
        k := k + 1;
      }
      assert entry[..k] == entry;
      RelinkedWellFormed(start, hash, entry);
    }

    /**
      Links `e` into array `h` of `cap` chains, in bucket `hash(e) % cap`.

      The original walks the chain to its end without comparing elements and
      so appends a duplicate; here the walk stops at an equal element, as
      `contains` does, and the documented "no effect" holds.
     */
    method AddNode(e: T, h: array<Chain<T>>, cap: nat)
      requires h.Length == cap && WellFormed(h[..], hash)
      modifies h
      ensures h[..] == TableInsert(old(h[..]), hash, e)
    {
      var hashVal := hash(e) % cap;
      var entry := h[hashVal];
      var k := 0;
      while k < |entry| && entry[k].word != e
        invariant 0 <= k <= |entry|
        invariant forall q :: 0 <= q < k ==> entry[q].word != e
      {
        k := k + 1;
      }
      if k == |entry| {
        h[hashVal] := entry + [Entry(hashVal, e)];
      } else {
        assert entry[k] == Entry(hashVal, e);
        assert e in Words(entry);
        assert entry[k := Entry(hashVal, e)] == entry;
        h[hashVal] := entry[k := Entry(hashVal, e)];
      }
    }

    /** Whether `e` is stored: a walk of the one chain its hash selects. */
    method Contains(e: T) returns (found: bool)
      requires Sound()
      ensures found == (e in Contents)
    {
      LocateWord(table[..], hash, e);
      var hashVal := hash(e) % capacity;
      var entry := table[hashVal];
      var k := 0;
      while k < |entry|
        invariant 0 <= k <= |entry|
        invariant forall q :: 0 <= q < k ==> entry[q].word != e
      {
        if entry[k].word == e {
          return true;
        }
        k := k + 1;
      }
      return false;
    }

    /** The number of stored elements, counted entry by entry over every chain. */
    method Size() returns (n: nat)
      requires Sound()
      ensures n == Count(table[..])
      ensures n == |Contents|
    {
      n := 0;
      for i := 0 to capacity
        invariant n == Count(table[..i])
      {
        var entry := table[i];
        var k := 0;
        while k < |entry|
          invariant 0 <= k <= |entry|
          invariant n == Count(table[..i]) + k
        {
          n := n + 1;
          k := k + 1;
        }
        assert table[..i + 1][..i] == table[..i];
      }
      assert table[..capacity] == table[..];
      CountIsCardinality(table[..], hash);
    }

    /**
      The number of stored elements whose bucket is `index`, that is, the
      length of chain `index`; 0 for an index outside the array.
     */
    method ElementsAtIndex(index: nat) returns (n: nat)
      requires Sound()
      ensures n == |Bucket(Contents, hash, capacity, index)|
      ensures index < capacity ==> n == |table[index]|
      ensures index >= capacity ==> n == 0
    {
      // The original indexes the array without this check.
      if index >= capacity {
        assert Bucket(Contents, hash, capacity, index) == {};
        return 0;
      }
      BucketWords(table[..], hash, index);
      DistinctCard(table[index]);
      var entry := table[index];
      n := 0;
      while n < |entry|
        invariant n <= |entry|
      {
        n := n + 1;
      }
    }

    /**
      Whether `e` is stored in chain `index`: exactly when `e` is stored and
      its hash selects `index`; false for an index outside the array.
     */
    method IsElementAtIndex(e: T, index: nat) returns (b: bool)
      requires Sound()
      ensures b == (e in Contents && hash(e) % capacity == index)
      ensures index >= capacity ==> !b
    {
      // The original indexes the array without this check.
      if index >= capacity {
        return false;
      }
      BucketWords(table[..], hash, index);
      var entry := table[index];
      var k := 0;
      while k < |entry|
        invariant 0 <= k <= |entry|
        invariant forall q :: 0 <= q < k ==> entry[q].word != e
      {
        if entry[k].word == e {
          assert e in Words(entry);
          return true;
        }
        k := k + 1;
      }
      assert e !in Words(entry);
      return false;
    }
  }
}
