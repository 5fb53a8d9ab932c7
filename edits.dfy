/**
  The candidate corrections `WordChecker::findSuggestions` probes for a
  word, in the order it probes them, and the list of suggestions it
  returns: every candidate the dictionary accepts, first occurrences only.

  Five families, each in the source's loop order:
  - adjacent swaps at positions 0 .. |w|-2;
  - insertions: for each position 0 .. |w|, each letter A..Z;
  - deletions at positions 0 .. |w|-1;
  - replacements: for each position 0 .. |w|-1, each letter A..Z;
  - splits at positions 1 .. |w|-1 into two words joined by a space.
 */
module Edits {

  /** The letters tried by insertion and replacement. */
  const Alphabet: string := "ABCDEFGHIJKLMNOPQRSTUVWXYZ"

  /** Letter number `i` of the alphabet, counting from 0 for A. */
  function Letter(i: nat): char
  {
    if i < 26 then ('A' as int + i) as char else 'A'
  }

  /** `Alphabet` lists the 26 letters in order. */
  lemma AlphabetLetters()
    ensures |Alphabet| == 26
    ensures forall i :: 0 <= i < 26 ==> Alphabet[i] == Letter(i)
  {
  }

  predicate NoDup<X(==)>(s: seq<X>)
  {
    forall i, j :: 0 <= i < j < |s| ==> s[i] != s[j]
  }

  /**
    The position of the first occurrence of `x` in `s`, or `|s|` when `x`
    does not occur, as a search returns the end of the range.
   */
  function FirstIndex<X(==)>(s: seq<X>, x: X): (p: nat)
    ensures p <= |s| && (p < |s| ==> s[p] == x)
    ensures forall i :: 0 <= i < p ==> s[i] != x
  {
    if s == [] then 0
    else if s[0] == x then 0
    else 1 + FirstIndex(s[1..], x)
  }

  // ---------------------------------------------------------------------
  // Single edits

  /** `w` with the characters at `i` and `i + 1` exchanged. */
  function SwapAt(w: string, i: nat): string
    requires i + 1 < |w|
  {
    w[i := w[i + 1]][i + 1 := w[i]]
  }

  /** `w` with `c` inserted before position `j`. */
  function InsertAt(w: string, j: nat, c: char): string
    requires j <= |w|
  {
    w[..j] + [c] + w[j..]
  }

  /** `w` without the character at position `m`. */
  function DeleteAt(w: string, m: nat): string
    requires m < |w|
  {
    w[..m] + w[m + 1..]
  }

  /** `w` with the character at position `n` replaced by `c`. */
  function ReplaceAt(w: string, n: nat, c: char): string
    requires n < |w|
  {
    w[n := c]
  }

  /** `s` is obtained from `w` by one swap, insertion, deletion or replacement. */
  ghost predicate OneEdit(w: string, s: string)
  {
    || (exists i: nat :: i + 1 < |w| && s == SwapAt(w, i))
    || (exists j: nat, c :: j <= |w| && c in Alphabet && s == InsertAt(w, j, c))
    || (exists m: nat :: m < |w| && s == DeleteAt(w, m))
    || (exists n: nat, c :: n < |w| && c in Alphabet && s == ReplaceAt(w, n, c))
  }

  // ---------------------------------------------------------------------
  // The candidate families, in probing order

  function Swaps(w: string): seq<string>
    requires |w| >= 1
  {
    seq(|w| - 1, i requires 0 <= i < |w| - 1 => SwapAt(w, i))
  }

  /** Candidate number `26 * j + l` inserts letter `l` at position `j`. */
  function Inserts(w: string): seq<string>
  {
    seq((|w| + 1) * 26, k requires 0 <= k < (|w| + 1) * 26 => InsertAt(w, k / 26, Letter(k % 26)))
  }

  function Deletes(w: string): seq<string>
  {
    seq(|w|, m requires 0 <= m < |w| => DeleteAt(w, m))
  }

  /** Candidate number `26 * n + o` replaces position `n` by letter `o`. */
  function Replaces(w: string): seq<string>
  {
    seq(|w| * 26, k requires 0 <= k < |w| * 26 => ReplaceAt(w, k / 26, Letter(k % 26)))
  }

  /** A split candidate: the text it would suggest and the two lookups that decide it. */
  datatype Split = Split(joined: string, left: string, right: string)

  /**
    The split probed at position `p`: a space is inserted before position
    `p`, and the text is cut at its FIRST space, which is the inserted one
    unless `w` itself holds a space before `p`.
   */
  function SplitAt(w: string, p: nat): (r: Split)
    requires p <= |w|
    ensures r.left + " " + r.right == r.joined
    ensures Spaceless(w) ==> r.joined == w[..p] + " " + w[p..] && r.left == w[..p] && r.right == w[p..]
  {
    var str := w[..p] + " " + w[p..];
    assert str[p] == ' ';
    var pos := FirstIndex(str, ' ');
    assert str == str[..pos] + " " + str[pos + 1..];
    assert Spaceless(w) ==> pos == p;
    Split(str, str[..pos], str[pos + 1..])
  }

  // ---------------------------------------------------------------------
  // What the dictionary accepts, and the suggestions

  /** The candidates of `cs` that the dictionary holds, in order. */
  function Hits(words: set<string>, cs: seq<string>): seq<string>
  {
    if cs == [] then []
    else
      var p := cs[..|cs| - 1];
      assert cs == p + [cs[|cs| - 1]];
      Hits(words, p) + (if cs[|cs| - 1] in words then [cs[|cs| - 1]] else [])
  }

  /** The joined texts of the splits at positions 1 .. n-1 whose two halves are both words. */
  function SplitHits(words: set<string>, w: string, n: nat): seq<string>
    requires n <= |w|
  {
    if n <= 1 then []
    else
      var sp := SplitAt(w, n - 1);
      SplitHits(words, w, n - 1) + (if sp.left in words && sp.right in words then [sp.joined] else [])
  }

  /** Every accepted candidate, in probing order, duplicates included. */
  function Discoveries(words: set<string>, w: string): seq<string>
    requires |w| >= 1
  {
    Hits(words, Swaps(w)) + Hits(words, Inserts(w)) + Hits(words, Deletes(w))
      + Hits(words, Replaces(w)) + SplitHits(words, w, |w|)
  }

  /** The first occurrence of every element of `s`, in order of first occurrence. */
  function Dedup<X(==)>(s: seq<X>): (r: seq<X>)
    ensures |r| <= |s|
  {
    if s == [] then []
    else
      var p := s[..|s| - 1];
      assert s == p + [s[|s| - 1]];
      var d := Dedup(p);
      if s[|s| - 1] in d then d else d + [s[|s| - 1]]
  }

  /** What `findSuggestions` returns for `w` against the dictionary `words`. */
  function Suggestions(words: set<string>, w: string): seq<string>
    requires |w| >= 1
  {
    Dedup(Discoveries(words, w))
  }

  // ---------------------------------------------------------------------
  // Lemmas about the families

  lemma InsertsAt(w: string, j: nat, l: nat, k: nat)
    requires j <= |w| && l < 26 && k == 26 * j + l
    ensures k < |Inserts(w)| && Inserts(w)[k] == InsertAt(w, j, Letter(l))
  {
    assert k / 26 == j && k % 26 == l;
  }

  lemma ReplacesAt(w: string, n: nat, o: nat, k: nat)
    requires n < |w| && o < 26 && k == 26 * n + o
    ensures k < |Replaces(w)| && Replaces(w)[k] == ReplaceAt(w, n, Letter(o))
  {
    assert k / 26 == n && k % 26 == o;
  }

  /** Candidates `26 * j` to `26 * j + 25` insert each letter in turn before position `j`. */
  lemma InsertsRow(w: string, j: nat, lo: nat)
    requires j <= |w| && lo == 26 * j
    ensures lo + 26 <= |Inserts(w)|
    ensures forall k :: lo <= k < lo + 26 ==> Inserts(w)[k] == InsertAt(w, j, Letter(k - lo))
  {
    forall k | lo <= k < lo + 26
      ensures Inserts(w)[k] == InsertAt(w, j, Letter(k - lo))
    {
      InsertsAt(w, j, k - lo, k);
    }
  }

  /** Candidates `26 * n` to `26 * n + 25` put each letter in turn at position `n`. */
  lemma ReplacesRow(w: string, n: nat, lo: nat)
    requires n < |w| && lo == 26 * n
    ensures lo + 26 <= |Replaces(w)|
    ensures forall k :: lo <= k < lo + 26 ==> Replaces(w)[k] == ReplaceAt(w, n, Letter(k - lo))
  {
    forall k | lo <= k < lo + 26
      ensures Replaces(w)[k] == ReplaceAt(w, n, Letter(k - lo))
    {
      ReplacesAt(w, n, k - lo, k);
    }
  }

  /** The swap candidates are exactly the swaps of two adjacent characters. */
  lemma SwapCandidates(w: string, s: string)
    requires |w| >= 1
    ensures s in Swaps(w) <==> exists i: nat :: i + 1 < |w| && s == SwapAt(w, i)
  {
    if s in Swaps(w) {
      var i :| 0 <= i < |Swaps(w)| && Swaps(w)[i] == s;
      assert s == SwapAt(w, i);
    }
    if exists i: nat :: i + 1 < |w| && s == SwapAt(w, i) {
      var i: nat :| i + 1 < |w| && s == SwapAt(w, i);
      assert Swaps(w)[i] == s;
    }
  }

  /** The insertion candidates are exactly the insertions of one letter. */
  lemma InsertCandidates(w: string, s: string)
    ensures s in Inserts(w) <==> exists j: nat, c :: j <= |w| && c in Alphabet && s == InsertAt(w, j, c)
  {
    AlphabetLetters();
    if s in Inserts(w) {
      var k :| 0 <= k < |Inserts(w)| && Inserts(w)[k] == s;
      assert s == InsertAt(w, k / 26, Letter(k % 26));
      assert Alphabet[k % 26] == Letter(k % 26);
    }
    if exists j: nat, c :: j <= |w| && c in Alphabet && s == InsertAt(w, j, c) {
      var j: nat, c :| j <= |w| && c in Alphabet && s == InsertAt(w, j, c);
      var l :| 0 <= l < |Alphabet| && Alphabet[l] == c;
      InsertsAt(w, j, l, 26 * j + l);
    }
  }

  /** The deletion candidates are exactly the deletions of one character. */
  lemma DeleteCandidates(w: string, s: string)
    ensures s in Deletes(w) <==> exists m: nat :: m < |w| && s == DeleteAt(w, m)
  {
    if s in Deletes(w) {
      var m :| 0 <= m < |Deletes(w)| && Deletes(w)[m] == s;
      assert s == DeleteAt(w, m);
    }
    if exists m: nat :: m < |w| && s == DeleteAt(w, m) {
      var m: nat :| m < |w| && s == DeleteAt(w, m);
      assert Deletes(w)[m] == s;
    }
  }

  /** The replacement candidates are exactly the replacements of one character by a letter. */
  lemma ReplaceCandidates(w: string, s: string)
    ensures s in Replaces(w) <==> exists n: nat, c :: n < |w| && c in Alphabet && s == ReplaceAt(w, n, c)
  {
    AlphabetLetters();
    if s in Replaces(w) {
      var k :| 0 <= k < |Replaces(w)| && Replaces(w)[k] == s;
      assert s == ReplaceAt(w, k / 26, Letter(k % 26));
      assert Alphabet[k % 26] == Letter(k % 26);
    }
    if exists n: nat, c :: n < |w| && c in Alphabet && s == ReplaceAt(w, n, c) {
      var n: nat, c :| n < |w| && c in Alphabet && s == ReplaceAt(w, n, c);
      var o :| 0 <= o < |Alphabet| && Alphabet[o] == c;
      ReplacesAt(w, n, o, 26 * n + o);
    }
  }

  /** Every candidate of the four edit families is one edit away from `w`, and conversely. */
  lemma EditCandidates(w: string, s: string)
    requires |w| >= 1
    ensures s in Swaps(w) + Inserts(w) + Deletes(w) + Replaces(w) <==> OneEdit(w, s)
  {
    SwapCandidates(w, s);
    InsertCandidates(w, s);
    DeleteCandidates(w, s);
    ReplaceCandidates(w, s);
  }

  /** No character of `s` is a space. */
  ghost predicate Spaceless(s: string)
  {
    forall k :: 0 <= k < |s| ==> s[k] != ' '
  }

  /** One edit of a word without spaces has no space: the alphabet has none. */
  lemma EditsAreSpaceless(w: string, s: string)
    requires Spaceless(w) && OneEdit(w, s)
    ensures Spaceless(s)
  {
    assert ' ' !in Alphabet;
    if exists j: nat, c :: j <= |w| && c in Alphabet && s == InsertAt(w, j, c) {
      var j: nat, c :| j <= |w| && c in Alphabet && s == InsertAt(w, j, c);
      InsertSpaceless(w, j, c);
    } else if exists m: nat :: m < |w| && s == DeleteAt(w, m) {
      var m: nat :| m < |w| && s == DeleteAt(w, m);
      DeleteSpaceless(w, m);
    }
  }

  lemma InsertSpaceless(w: string, j: nat, c: char)
    requires Spaceless(w) && j <= |w| && c != ' '
    ensures Spaceless(InsertAt(w, j, c))
  {
    var s := InsertAt(w, j, c);
    forall k | 0 <= k < |s| ensures s[k] != ' ' {
      if k > j { assert s[k] == w[k - 1]; }
    }
  }

  lemma DeleteSpaceless(w: string, m: nat)
    requires Spaceless(w) && m < |w|
    ensures Spaceless(DeleteAt(w, m))
  {
    var s := DeleteAt(w, m);
    forall k | 0 <= k < |s| ensures s[k] != ' ' {
      if k >= m { assert s[k] == w[k + 1]; }
    }
  }

  /** Every split hit contains a space. */
  lemma {:induction false} SplitHitsHaveSpace(words: set<string>, w: string, n: nat, s: string)
    requires n <= |w| && s in SplitHits(words, w, n)
    ensures !Spaceless(s)
  {
    if n > 1 {
      var sp := SplitAt(w, n - 1);
      if s in SplitHits(words, w, n - 1) {
        SplitHitsHaveSpace(words, w, n - 1, s);
      } else {
        assert s == sp.joined == sp.left + " " + sp.right;
        assert s[|sp.left|] == ' ';
      }
    }
  }

  /** For a word without spaces the split hits are exactly the splits into two dictionary words. */
  lemma {:induction false} SplitHitsExactly(words: set<string>, w: string, n: nat, s: string)
    requires n <= |w| && Spaceless(w)
    ensures s in SplitHits(words, w, n) <==>
      exists p :: 1 <= p < n && s == w[..p] + " " + w[p..] && w[..p] in words && w[p..] in words
  {
    if n > 1 {
      SplitHitsExactly(words, w, n - 1, s);
      var m := n - 1;
      var sp := SplitAt(w, m);
      var tail := if sp.left in words && sp.right in words then [sp.joined] else [];
      assert SplitHits(words, w, n) == SplitHits(words, w, m) + tail;
      if s in tail {
        assert 1 <= m < n && s == w[..m] + " " + w[m..] && w[..m] in words && w[m..] in words;
      }
      if exists p :: 1 <= p < n && s == w[..p] + " " + w[p..] && w[..p] in words && w[p..] in words {
        var p :| 1 <= p < n && s == w[..p] + " " + w[p..] && w[..p] in words && w[p..] in words;
        if p == m {
          assert s in tail;
        }
      }
    }
  }

  // ---------------------------------------------------------------------
  // Lemmas about Dedup

  /** First occurrences in a prefix keep their place when more elements follow. */
  lemma {:induction false} DedupPrefix<X>(a: seq<X>, b: seq<X>)
    ensures Dedup(a) <= Dedup(a + b)
    ensures forall k :: |Dedup(a)| <= k < |Dedup(a + b)| ==> Dedup(a + b)[k] in b && Dedup(a + b)[k] !in a
  {
    if b == [] {
      assert a + b == a;
    } else {
      var p, x := b[..|b| - 1], b[|b| - 1];
      DedupPrefix(a, p);
      var s := a + b;
      assert s[..|s| - 1] == a + p && s[|s| - 1] == x;
      assert Dedup(s) == if x in Dedup(a + p) then Dedup(a + p) else Dedup(a + p) + [x];
      DedupMembers(a + p, x);
      assert x in a + p <==> x in a || x in p;
      assert x in b by { assert b[|b| - 1] == x; }
      forall k | |Dedup(a)| <= k < |Dedup(s)|
        ensures Dedup(s)[k] in b && Dedup(s)[k] !in a
      {
        if k < |Dedup(a + p)| {
          assert Dedup(s)[k] == Dedup(a + p)[k];
          assert p <= b;
        }
      }
    }
  }

  lemma FirstIndexExtend<X>(s: seq<X>, x: X, y: X)
    requires y in s
    ensures FirstIndex(s + [x], y) == FirstIndex(s, y)
  {
    var q := FirstIndex(s + [x], y);
    var q' := FirstIndex(s, y);
    assert (s + [x])[q'] == y;
  }

  lemma FirstIndexLast<X>(s: seq<X>, x: X)
    requires x !in s
    ensures FirstIndex(s + [x], x) == |s|
  {
    var q := FirstIndex(s + [x], x);
    assert (s + [x])[|s|] == x;
  }

  /** The suggestions are listed in the order in which they were first found. */
  lemma {:induction false} DedupOrder<X>(s: seq<X>)
    ensures forall i, j :: 0 <= i < j < |Dedup(s)| ==> FirstIndex(s, Dedup(s)[i]) < FirstIndex(s, Dedup(s)[j])
  {
    if s != [] {
      var p := s[..|s| - 1];
      var x := s[|s| - 1];
      assert s == p + [x];
      DedupOrder(p);
      var d := Dedup(p);
      forall i, j | 0 <= i < j < |Dedup(s)|
        ensures FirstIndex(s, Dedup(s)[i]) < FirstIndex(s, Dedup(s)[j])
      {
        var u, v := Dedup(s)[i], Dedup(s)[j];
        assert i < |d| && u == d[i];
        DedupMembers(p, u);
        FirstIndexExtend(p, x, u);
        if j < |d| {
          assert v == d[j];
          DedupMembers(p, v);
          FirstIndexExtend(p, x, v);
        } else {
          assert x !in d && v == x;
          DedupMembers(p, x);
          FirstIndexLast(p, x);
        }
      }
    }
  }

  // ---------------------------------------------------------------------
  // One probe of the suggestion loops

  /** Deduplicating one more element appends it exactly when it is new. */
  lemma DedupSnoc<X>(s: seq<X>, x: X)
    ensures Dedup(s + [x]) == if x in Dedup(s) then Dedup(s) else Dedup(s) + [x]
  {
    assert (s + [x])[..|s + [x]| - 1] == s;
  }

  /** The hits of one more candidate. */
  lemma HitsSnoc(words: set<string>, cs: seq<string>, k: nat)
    requires k < |cs|
    ensures Hits(words, cs[..k + 1]) == Hits(words, cs[..k]) + if cs[k] in words then [cs[k]] else []
  {
    assert cs[..k + 1][..k] == cs[..k];
  }

  /**
    Probing candidate `str`, which is `cs[k]`, when `v` lists the
    deduplicated hits of `pre` and `cs[..k]`: the list grows by `str`
    exactly when the dictionary holds it and `v` does not list it yet.
   */
  lemma ProbeStep(words: set<string>, pre: seq<string>, cs: seq<string>, k: nat, v: seq<string>, str: string)
    requires k < |cs| && str == cs[k] && v == Dedup(pre + Hits(words, cs[..k]))
    ensures Dedup(pre + Hits(words, cs[..k + 1])) == if str in words && str !in v then v + [str] else v
  {
    HitsSnoc(words, cs, k);
    var h := Hits(words, cs[..k]);
    if str in words {
      assert pre + Hits(words, cs[..k + 1]) == (pre + h) + [str];
      DedupSnoc(pre + h, str);
    } else {
      assert pre + Hits(words, cs[..k + 1]) == pre + h;
    }
  }

  /** `ProbeStep` for the first probing loop, which starts from an empty list. */
  lemma FirstProbeStep(words: set<string>, cs: seq<string>, k: nat, v: seq<string>, str: string)
    requires k < |cs| && str == cs[k] && v == Dedup(Hits(words, cs[..k]))
    ensures Dedup(Hits(words, cs[..k + 1])) == if str in words && str !in v then v + [str] else v
  {
    HitsSnoc(words, cs, k);
    if str in words {
      assert Hits(words, cs[..k + 1]) == Hits(words, cs[..k]) + [str];
      DedupSnoc(Hits(words, cs[..k]), str);
    } else {
      assert Hits(words, cs[..k + 1]) == Hits(words, cs[..k]);
    }
  }

  /**
    Probing the split at `p` when `v` lists the deduplicated hits of `pre`
    and the splits before `p`: its joined text is appended exactly when both
    halves are words and `v` does not list it yet.
   */
  lemma SplitStep(words: set<string>, pre: seq<string>, w: string, p: nat, v: seq<string>, sp: Split)
    requires 1 <= p < |w| && sp == SplitAt(w, p) && v == Dedup(pre + SplitHits(words, w, p))
    ensures Dedup(pre + SplitHits(words, w, p + 1)) ==
      if sp.left in words && sp.right in words && sp.joined !in v then v + [sp.joined] else v
  {
    var h := SplitHits(words, w, p);
    if sp.left in words && sp.right in words {
      assert pre + SplitHits(words, w, p + 1) == (pre + h) + [sp.joined];
      DedupSnoc(pre + h, sp.joined);
    } else {
      assert pre + SplitHits(words, w, p + 1) == pre + h;
    }
  }

  // ---------------------------------------------------------------------
  // Properties of the suggestions

  /** `Dedup` lists no element twice. */
  lemma {:induction false} DedupNoDup<X>(s: seq<X>)
    ensures NoDup(Dedup(s))
  {
    if s != [] {
      var p := s[..|s| - 1];
      assert s == p + [s[|s| - 1]];
      DedupNoDup(p);
    }
  }

  /** `Dedup` keeps exactly the elements of its input. */
  lemma {:induction false} DedupMembers<X>(s: seq<X>, x: X)
    ensures x in Dedup(s) <==> x in s
  {
    if s != [] {
      var p := s[..|s| - 1];
      assert s == p + [s[|s| - 1]];
      DedupMembers(p, x);
    }
  }

  /** The hits are exactly the candidates the dictionary holds. */
  lemma {:induction false} HitsMembers(words: set<string>, cs: seq<string>, s: string)
    ensures s in Hits(words, cs) <==> s in cs && s in words
  {
    if cs != [] {
      var p := cs[..|cs| - 1];
      assert cs == p + [cs[|cs| - 1]];
      HitsMembers(words, p, s);
    }
  }

  /** A word is suggested exactly when it is an accepted edit candidate or an accepted split. */
  lemma SuggestionsMembers(words: set<string>, w: string, s: string)
    requires |w| >= 1
    ensures s in Suggestions(words, w) <==>
      (s in words && s in Swaps(w) + Inserts(w) + Deletes(w) + Replaces(w)) || s in SplitHits(words, w, |w|)
  {
    DedupMembers(Discoveries(words, w), s);
    HitsMembers(words, Swaps(w), s);
    HitsMembers(words, Inserts(w), s);
    HitsMembers(words, Deletes(w), s);
    HitsMembers(words, Replaces(w), s);
  }

  /** No suggestion is listed twice. */
  lemma SuggestionsNoDup(words: set<string>, w: string)
    requires |w| >= 1
    ensures NoDup(Suggestions(words, w))
  {
    DedupNoDup(Discoveries(words, w));
  }

  /** A suggestion without a space is a dictionary word one edit away from `w`. */
  lemma SuggestionsSound(words: set<string>, w: string, s: string)
    requires |w| >= 1 && s in Suggestions(words, w) && Spaceless(s)
    ensures s in words && OneEdit(w, s)
  {
    SuggestionsMembers(words, w, s);
    if s in SplitHits(words, w, |w|) {
      SplitHitsHaveSpace(words, w, |w|, s);
    }
    EditCandidates(w, s);
  }

  /** Every dictionary word one edit away from `w` is suggested. */
  lemma SuggestionsComplete(words: set<string>, w: string, s: string)
    requires |w| >= 1 && s in words && OneEdit(w, s)
    ensures s in Suggestions(words, w)
  {
    EditCandidates(w, s);
    SuggestionsMembers(words, w, s);
  }

  /**
    For a word without spaces, the suggestions that hold a space are exactly
    the texts `a + " " + b` with `a + b == w`, `a` and `b` non-empty and
    both in the dictionary.
   */
  lemma SuggestionsSplits(words: set<string>, w: string, s: string)
    requires |w| >= 1 && Spaceless(w)
    ensures s in Suggestions(words, w) && !Spaceless(s) <==>
      exists p :: 1 <= p < |w| && s == w[..p] + " " + w[p..] && w[..p] in words && w[p..] in words
  {
    SuggestionsMembers(words, w, s);
    SplitHitsExactly(words, w, |w|, s);
    if !Spaceless(s) && s !in SplitHits(words, w, |w|) {
      EditCandidates(w, s);
      if OneEdit(w, s) {
        EditsAreSpaceless(w, s);
      }
    }
    if exists p :: 1 <= p < |w| && s == w[..p] + " " + w[p..] && w[..p] in words && w[p..] in words {
      var p :| 1 <= p < |w| && s == w[..p] + " " + w[p..] && w[..p] in words && w[p..] in words;
      assert s[p] == ' ';
    }
  }

  /** Each suggestion was first found before the ones listed after it. */
  lemma SuggestionsFirstFound(words: set<string>, w: string)
    requires |w| >= 1
    ensures forall i, j :: 0 <= i < j < |Suggestions(words, w)| ==>
      FirstIndex(Discoveries(words, w), Suggestions(words, w)[i])
        < FirstIndex(Discoveries(words, w), Suggestions(words, w)[j])
  {
    DedupOrder(Discoveries(words, w));
  }

  lemma DedupPrefixes<X>(h1: seq<X>, h2: seq<X>, h3: seq<X>, h4: seq<X>, h5: seq<X>)
    ensures Dedup(h1) <= Dedup(h1 + h2 + h3 + h4 + h5)
    ensures Dedup(h1 + h2) <= Dedup(h1 + h2 + h3 + h4 + h5)
    ensures Dedup(h1 + h2 + h3) <= Dedup(h1 + h2 + h3 + h4 + h5)
    ensures Dedup(h1 + h2 + h3 + h4) <= Dedup(h1 + h2 + h3 + h4 + h5)
  {
    DedupPrefix(h1, h2);
    DedupPrefix(h1 + h2, h3);
    DedupPrefix(h1 + h2 + h3, h4);
    DedupPrefix(h1 + h2 + h3 + h4, h5);
  }

  /**
    The suggestions list the swap hits first, then the insertion, deletion
    and replacement hits, and the splits last.
   */
  lemma SuggestionsByFamily(words: set<string>, w: string)
    requires |w| >= 1
    ensures Dedup(Hits(words, Swaps(w))) <= Suggestions(words, w)
    ensures Dedup(Hits(words, Swaps(w)) + Hits(words, Inserts(w))) <= Suggestions(words, w)
    ensures Dedup(Hits(words, Swaps(w)) + Hits(words, Inserts(w)) + Hits(words, Deletes(w)))
      <= Suggestions(words, w)
    ensures Dedup(Hits(words, Swaps(w)) + Hits(words, Inserts(w)) + Hits(words, Deletes(w))
      + Hits(words, Replaces(w))) <= Suggestions(words, w)
  {
    DedupPrefixes(Hits(words, Swaps(w)), Hits(words, Inserts(w)), Hits(words, Deletes(w)),
      Hits(words, Replaces(w)), SplitHits(words, w, |w|));
  }
}
