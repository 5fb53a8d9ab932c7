/**
  Value-level model of the separate-chaining table behind `HashSet`.

  A chain (the linked list hanging off one array cell) is a sequence of
  entries; the `Next` links of the original are the order of that sequence.
  A table is the sequence of all chains, one per bucket. The class in
  module HashTable keeps an array of chains and is specified in terms of
  the functions and lemmas below.
 */
module Buckets {

  /** One chain node: the stored element and the bucket it was linked into. */
  datatype Entry<T> = Entry(key: nat, word: T)

  type Chain<T> = seq<Entry<T>>

  type Table<T> = seq<Chain<T>>

  /** The elements stored in a chain. */
  function Words<T>(c: Chain<T>): set<T>
  {
    set k | 0 <= k < |c| :: c[k].word
  }

  /** No element occurs twice in a chain. */
  predicate Distinct<T(==)>(c: Chain<T>)
  {
    forall i, j :: 0 <= i < j < |c| ==> c[i].word != c[j].word
  }

  /** Every entry of chain `i` carries key `i` and hashes to `i` modulo the table length. */
  predicate Placed<T>(t: Table<T>, hash: T -> nat)
  {
    forall i, k :: 0 <= i < |t| && 0 <= k < |t[i]| ==>
      t[i][k].key == i && hash(t[i][k].word) % |t| == i
  }

  /** The table invariant: at least one bucket, placement, and no duplicates in a chain. */
  predicate WellFormed<T(==)>(t: Table<T>, hash: T -> nat)
  {
    |t| > 0 && Placed(t, hash) && forall i :: 0 <= i < |t| ==> Distinct(t[i])
  }

  /** The elements stored anywhere in the table. */
  function AllWords<T>(t: Table<T>): set<T>
  {
    if t == [] then {} else AllWords(t[..|t| - 1]) + Words(t[|t| - 1])
  }

  /** The number of entries in the table: the sum of the chain lengths. */
  function Count<T>(t: Table<T>): nat
  {
    if t == [] then 0 else Count(t[..|t| - 1]) + |t[|t| - 1]|
  }

  /** The elements of `s` whose bucket under `cap` buckets is `i`. */
  ghost function Bucket<T>(s: set<T>, hash: T -> nat, cap: nat, i: nat): set<T>
    requires cap > 0
  {
    set e | e in s && hash(e) % cap == i
  }

  /** The sum of the bucket sizes of buckets `0 .. n-1`. */
  ghost function BucketSum<T>(s: set<T>, hash: T -> nat, cap: nat, n: nat): nat
    requires cap > 0
  {
    if n == 0 then 0 else BucketSum(s, hash, cap, n - 1) + |Bucket(s, hash, cap, n - 1)|
  }

  /** A table of `cap` empty chains. */
  function EmptyTable<T>(cap: nat): (t: Table<T>)
    ensures |t| == cap && forall i :: 0 <= i < cap ==> t[i] == []
  {
    seq(cap, _ => [])
  }

  /**
    Adding `e` to a chain as the documented contract of `add` says: nothing
    changes when an equal element is already linked in; otherwise a new
    entry with the given key goes at the end of the chain.
   */
  function ChainInsert<T(==)>(c: Chain<T>, key: nat, e: T): (r: Chain<T>)
    ensures Words(r) == Words(c) + {e}
    ensures Distinct(c) ==> Distinct(r)
    ensures (forall k :: 0 <= k < |c| ==> c[k].key == key) ==> forall k :: 0 <= k < |r| ==> r[k].key == key
  {
    if e in Words(c) then c
    else
      WordsSnoc(c, Entry(key, e));
      c + [Entry(key, e)]
  }

  /** Adding `e` to the chain of bucket `hash(e) % |t|`. */
  function TableInsert<T(==)>(t: Table<T>, hash: T -> nat, e: T): (r: Table<T>)
    requires |t| > 0
    ensures |r| == |t|
  {
    var b := hash(e) % |t|;
    t[b := ChainInsert(t[b], b, e)]
  }

  /**
    The chain update that the original's `add` and `addNode` actually
    perform: the walk to the end of the chain never compares elements, so
    the new entry is appended even when an equal one is already there.
   */
  function TableAppendAsWritten<T>(t: Table<T>, hash: T -> nat, e: T): (r: Table<T>)
    requires |t| > 0
    ensures |r| == |t|
  {
    var b := hash(e) % |t|;
    t[b := t[b] + [Entry(b, e)]]
  }

  // ---------------------------------------------------------------------
  // Chains

  lemma WordsSnoc<T>(c: Chain<T>, x: Entry<T>)
    ensures Words(c + [x]) == Words(c) + {x.word}
  {
    var r := c + [x];
    assert forall k :: 0 <= k < |c| ==> r[k] == c[k];
    assert r[|c|] == x;
  }

  /** A chain without duplicates holds exactly as many elements as entries. */
  lemma {:induction false} DistinctCard<T>(c: Chain<T>)
    requires Distinct(c)
    ensures |Words(c)| == |c|
  {
    if c != [] {
      var p := c[..|c| - 1];
      assert Distinct(p) by {
        forall i, j | 0 <= i < j < |p| ensures p[i].word != p[j].word {
          assert p[i] == c[i] && p[j] == c[j];
        }
      }
      DistinctCard(p);
      WordsSnoc(p, c[|c| - 1]);
      assert p + [c[|c| - 1]] == c;
      assert c[|c| - 1].word !in Words(p);
    }
  }

  // ---------------------------------------------------------------------
  // Tables

  /** The first `n` chains hold `e` exactly when `e`'s own bucket is among them and holds it. */
  lemma {:induction false} PrefixWords<T>(t: Table<T>, hash: T -> nat, n: nat, e: T)
    requires |t| > 0 && Placed(t, hash) && n <= |t|
    ensures e in AllWords(t[..n]) <==> hash(e) % |t| < n && e in Words(t[hash(e) % |t|])
  {
    if n > 0 {
      assert t[..n][..n - 1] == t[..n - 1];
      assert t[..n][n - 1] == t[n - 1];
      PrefixWords(t, hash, n - 1, e);
      if e in Words(t[n - 1]) {
        var k :| 0 <= k < |t[n - 1]| && t[n - 1][k].word == e;
        assert hash(e) % |t| == n - 1;
      }
    }
  }

  /** Placement makes membership a question about one chain. */
  lemma LocateWord<T>(t: Table<T>, hash: T -> nat, e: T)
    requires |t| > 0 && Placed(t, hash)
    ensures e in AllWords(t) <==> e in Words(t[hash(e) % |t|])
  {
    assert t[..|t|] == t;
    PrefixWords(t, hash, |t|, e);
  }

  /** The elements in chain `i` are exactly the stored elements whose bucket is `i`. */
  lemma BucketWords<T>(t: Table<T>, hash: T -> nat, i: nat)
    requires |t| > 0 && Placed(t, hash) && i < |t|
    ensures Words(t[i]) == Bucket(AllWords(t), hash, |t|, i)
  {
    forall e | e in Words(t[i]) ensures e in AllWords(t) && hash(e) % |t| == i {
      var k :| 0 <= k < |t[i]| && t[i][k].word == e;
      LocateWord(t, hash, e);
    }
    forall e | e in AllWords(t) && hash(e) % |t| == i ensures e in Words(t[i]) {
      LocateWord(t, hash, e);
    }
  }

  lemma {:induction false} PrefixCount<T>(t: Table<T>, hash: T -> nat, n: nat)
    requires WellFormed(t, hash) && n <= |t|
    ensures Count(t[..n]) == |AllWords(t[..n])|
  {
    if n > 0 {
      assert t[..n][..n - 1] == t[..n - 1];
      assert t[..n][n - 1] == t[n - 1];
      PrefixCount(t, hash, n - 1);
      DistinctCard(t[n - 1]);
      var last := t[n - 1];
      forall k | 0 <= k < |last| ensures last[k].word !in AllWords(t[..n - 1]) {
        PrefixWords(t, hash, n - 1, last[k].word);
      }
      assert AllWords(t[..n - 1]) * Words(t[n - 1]) == {};
    }
  }

  /**
    Counting entries chain by chain gives the number of distinct stored
    elements: chains hold no duplicates and no element is in two chains.
   */
  lemma CountIsCardinality<T>(t: Table<T>, hash: T -> nat)
    requires WellFormed(t, hash)
    ensures Count(t) == |AllWords(t)|
  {
    assert t[..|t|] == t;
    PrefixCount(t, hash, |t|);
  }

  lemma {:induction false} PrefixBucketSum<T>(t: Table<T>, hash: T -> nat, n: nat)
    requires WellFormed(t, hash) && n <= |t|
    ensures BucketSum(AllWords(t), hash, |t|, n) == Count(t[..n])
  {
    if n > 0 {
      assert t[..n][..n - 1] == t[..n - 1];
      assert t[..n][n - 1] == t[n - 1];
      PrefixBucketSum(t, hash, n - 1);
      BucketWords(t, hash, n - 1);
      DistinctCard(t[n - 1]);
    }
  }

  /**
    The entries counted chain by chain equal the sum, over every index, of
    the number of stored elements whose hash selects that index.
   */
  lemma SizeIsBucketSum<T>(t: Table<T>, hash: T -> nat)
    requires WellFormed(t, hash)
    ensures Count(t) == BucketSum(AllWords(t), hash, |t|, |t|)
  {
    assert t[..|t|] == t;
    PrefixBucketSum(t, hash, |t|);
  }

  /** A table of empty chains is well formed (given one bucket) and stores nothing. */
  lemma {:induction false} EmptyTableEmpty<T>(t: Table<T>, hash: T -> nat)
    requires forall i :: 0 <= i < |t| ==> t[i] == []
    ensures AllWords(t) == {} && Count(t) == 0
    ensures |t| > 0 ==> WellFormed(t, hash)
  {
    if t != [] {
      EmptyTableEmpty(t[..|t| - 1], hash);
    }
  }

  /** Replacing one chain adds to the stored elements exactly what the chain gained. */
  lemma {:induction false} UpdateWords<T>(t: Table<T>, b: nat, c: Chain<T>, x: set<T>)
    requires b < |t| && Words(c) == Words(t[b]) + x
    ensures AllWords(t[b := c]) == AllWords(t) + x
  {
    var u := t[b := c];
    var n := |t| - 1;
    if b == n {
      assert u[..n] == t[..n];
    } else {
      assert u[..n] == t[..n][b := c];
      UpdateWords(t[..n], b, c, x);
    }
  }

  /** Replacing one chain changes the entry count by the change in its length. */
  lemma {:induction false} UpdateCount<T>(t: Table<T>, b: nat, c: Chain<T>)
    requires b < |t|
    ensures Count(t[b := c]) + |t[b]| == Count(t) + |c|
  {
    var u := t[b := c];
    var n := |t| - 1;
    if b == n {
      assert u[..n] == t[..n];
    } else {
      assert u[..n] == t[..n][b := c];
      UpdateCount(t[..n], b, c);
    }
  }

  // ---------------------------------------------------------------------
  // Insertion

  /**
    Inserting keeps the table invariant, stores `e` in its own bucket, and
    adds exactly `e` to the stored elements.
   */
  lemma TableInsertWellFormed<T>(t: Table<T>, hash: T -> nat, e: T)
    requires WellFormed(t, hash)
    ensures WellFormed(TableInsert(t, hash, e), hash)
    ensures AllWords(TableInsert(t, hash, e)) == AllWords(t) + {e}
    ensures e in Words(TableInsert(t, hash, e)[hash(e) % |t|])
  {
    var b := hash(e) % |t|;
    var c := ChainInsert(t[b], b, e);
    forall k | 0 <= k < |c|
      ensures c[k].key == b && hash(c[k].word) % |t| == b
    {
      if k < |t[b]| {
        assert c[k] == t[b][k];
      }
    }
    UpdatePlaced(t, hash, b, c);
    UpdateWords(t, b, c, {e});
  }

  /** Replacing chain `b` by a chain placed in bucket `b` keeps every entry placed. */
  lemma UpdatePlaced<T>(t: Table<T>, hash: T -> nat, b: nat, c: Chain<T>)
    requires Placed(t, hash) && b < |t|
    requires forall k :: 0 <= k < |c| ==> c[k].key == b && hash(c[k].word) % |t| == b
    ensures Placed(t[b := c], hash)
  {
  }

  /** Inserting an element that is already stored leaves the table as it was. */
  lemma TableInsertPresent<T>(t: Table<T>, hash: T -> nat, e: T)
    requires WellFormed(t, hash) && e in AllWords(t)
    ensures TableInsert(t, hash, e) == t
  {
    LocateWord(t, hash, e);
  }

  /** Inserting adds one entry when the element is new and none when it is stored already. */
  lemma TableInsertCount<T>(t: Table<T>, hash: T -> nat, e: T)
    requires |t| > 0 && Placed(t, hash)
    ensures Count(TableInsert(t, hash, e)) == Count(t) + (if e in AllWords(t) then 0 else 1)
  {
    var b := hash(e) % |t|;
    var c := ChainInsert(t[b], b, e);
    LocateWord(t, hash, e);
    UpdateCount(t, b, c);
    assert |c| == |t[b]| + (if e in Words(t[b]) then 0 else 1);
  }

  /** The table after inserting the elements of chain `c`, first to last: one pass of the resize. */
  function Relinked<T(==)>(t: Table<T>, hash: T -> nat, c: Chain<T>): (r: Table<T>)
    requires |t| > 0
    ensures |r| == |t|
    decreases |c|
  {
    if c == [] then t
    else TableInsert(Relinked(t, hash, c[..|c| - 1]), hash, c[|c| - 1].word)
  }

  /** Relinking a chain keeps the table invariant and adds exactly the chain's elements. */
  lemma {:induction false} RelinkedWellFormed<T>(t: Table<T>, hash: T -> nat, c: Chain<T>)
    requires WellFormed(t, hash)
    ensures WellFormed(Relinked(t, hash, c), hash)
    ensures AllWords(Relinked(t, hash, c)) == AllWords(t) + Words(c)
    decreases |c|
  {
    if c != [] {
      var p, x := c[..|c| - 1], c[|c| - 1];
      assert c == p + [x];
      WordsSnoc(p, x);
      var mid := Relinked(t, hash, p);
      RelinkedWellFormed(t, hash, p);
      TableInsertWellFormed(mid, hash, x.word);
    }
  }

  /**
    As written, adding the same element twice to an empty table (a freshly
    constructed set) leaves two entries for one element: `size()` then
    reports 2, and the chain holds a duplicate.
   */
  lemma AsWrittenAddTwice<T>(t: Table<T>, hash: T -> nat, e: T)
    requires |t| > 0 && forall i :: 0 <= i < |t| ==> t[i] == []
    ensures
      var t2 := TableAppendAsWritten(TableAppendAsWritten(t, hash, e), hash, e);
      Count(t2) == 2 && AllWords(t2) == {e} && !WellFormed(t2, hash)
  {
    var b := hash(e) % |t|;
    var dup := [Entry(b, e), Entry(b, e)];
    var t2 := TableAppendAsWritten(TableAppendAsWritten(t, hash, e), hash, e);
    assert t2 == t[b := dup] by {
      assert t[b] == [];
      assert t[b] + [Entry(b, e)] == [Entry(b, e)];
      var t1 := TableAppendAsWritten(t, hash, e);
      assert t1 == t[b := [Entry(b, e)]];
      assert t1[b] + [Entry(b, e)] == dup;
    }
    assert Words(dup) == Words(t[b]) + {e} by {
      assert t[b] == [];
      assert dup[0].word == e;
    }
    assert AllWords(t) == {} && Count(t) == 0 && |t[b]| == 0 by {
      EmptyTableEmpty(t, hash);
    }
    UpdateCount(t, b, dup);
    UpdateWords(t, b, dup, {e});
    assert !Distinct(t2[b]) by {
      assert t2[b] == dup && dup[0].word == dup[1].word;
    }
  }
}
