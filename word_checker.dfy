/**
  `WordChecker`: checks words against a dictionary held in a `HashSet` of
  strings, and proposes corrections for a word the dictionary lacks.
 */
module WordCheck {
  import opened HashTable
  import opened Edits

  class WordChecker {
    /** The dictionary, shared with the caller. */
    const words: HashSet<string>

    constructor (words: HashSet<string>)
      ensures this.words == words
    {
      this.words := words;
    }

    /** Whether the dictionary holds `word`. */
    method WordExists(word: string) returns (b: bool)
      requires words.Valid()
      ensures b == (word in words.Contents)
    {
      b := words.Contains(word);
    }

    /**
      One probe: when the dictionary holds `str` and `vect` does not list it
      yet, `str` is appended.
     */
    method Probe(str: string, vect: seq<string>) returns (v: seq<string>)
      requires words.Valid()
      ensures v == if str in words.Contents && str !in vect then vect + [str] else vect
    {
      var known := WordExists(str);
      if known && str !in vect {
        v := vect + [str];
      } else {
        v := vect;
      }
    }

    /**
      The dictionary words one swap, insertion, deletion or replacement away
      from `word`, then the splits of `word` into two dictionary words joined
      by a space, each listed once, in the order the probes find them.
     */
    method FindSuggestions(word: string) returns (vect: seq<string>)
      requires words.Valid() && |word| >= 1
      ensures vect == Suggestions(words.Contents, word)
      ensures NoDup(vect)
    {
      var dict := words.Contents;
      vect := ProbeSwaps(word);
      ghost var h1 := Hits(dict, Swaps(word));
      vect := ProbeInserts(word, h1, vect);
      ghost var h2 := h1 + Hits(dict, Inserts(word));
      vect := ProbeDeletes(word, h2, vect);
      ghost var h3 := h2 + Hits(dict, Deletes(word));
      vect := ProbeReplaces(word, h3, vect);
      ghost var h4 := h3 + Hits(dict, Replaces(word));
      vect := ProbeSplits(word, h4, vect);
      assert h4 + SplitHits(dict, word, |word|) == Discoveries(dict, word);
      SuggestionsNoDup(dict, word);
    }

    /** The swap loop: every pair of adjacent characters exchanged. */
    method ProbeSwaps(word: string) returns (v: seq<string>)
      requires words.Valid() && |word| >= 1
      ensures v == Dedup(Hits(words.Contents, Swaps(word)))
    {
      var dict := words.Contents;
      v := [];
      for i := 0 to |word| - 1
        invariant v == Dedup(Hits(dict, Swaps(word)[..i]))
      {
        var str := word;
        var ch := str[i];
        str := str[i := str[i + 1]];
        str := str[i + 1 := ch];
        assert str == Swaps(word)[i];
        FirstProbeStep(dict, Swaps(word), i, v, str);
        v := Probe(str, v);
      }
      assert Swaps(word)[..|word| - 1] == Swaps(word);
    }

    /** The insertion loop: every letter inserted before every position. */
    method ProbeInserts(word: string, ghost pre: seq<string>, vect: seq<string>) returns (v: seq<string>)
      requires words.Valid() && vect == Dedup(pre)
      ensures v == Dedup(pre + Hits(words.Contents, Inserts(word)))
    {
      var dict := words.Contents;
      v := vect;
      assert pre + Hits(dict, Inserts(word)[..0]) == pre;
      ghost var k := 0;
      for j := 0 to |word| + 1
        invariant k == 26 * j
        invariant v == Dedup(pre + Hits(dict, Inserts(word)[..k]))
      {
        InsertsRow(word, j, k);
        v := ProbeInsertsAt(word, j, Inserts(word), k, pre, v);
        k := k + 26;
      }
      assert Inserts(word)[..k] == Inserts(word);
    }

    /**
      The inner insertion loop: every letter inserted before position `j`.
      `cs` holds these 26 candidates from position `lo` on.
     */
    method ProbeInsertsAt(word: string, j: nat, ghost cs: seq<string>, ghost lo: nat, ghost pre: seq<string>,
                          vect: seq<string>) returns (v: seq<string>)
      requires words.Valid() && j <= |word| && lo + 26 <= |cs|
      requires forall k :: lo <= k < lo + 26 ==> cs[k] == InsertAt(word, j, Letter(k - lo))
      requires vect == Dedup(pre + Hits(words.Contents, cs[..lo]))
      ensures v == Dedup(pre + Hits(words.Contents, cs[..lo + 26]))
    {
      var dict := words.Contents;
      v := vect;
      ghost var k := lo;
      for l := 0 to 26
        invariant k == lo + l
        invariant v == Dedup(pre + Hits(dict, cs[..k]))
      {
        v := ProbeInsert(word, j, l, cs, lo, k, pre, v);
        k := k + 1;
      }
    }

    /** The body of the inner insertion loop: letter `l` inserted before position `j`. */
    method ProbeInsert(word: string, j: nat, l: nat, ghost cs: seq<string>, ghost lo: nat, ghost k: nat,
                       ghost pre: seq<string>, vect: seq<string>) returns (v: seq<string>)
      requires words.Valid() && j <= |word| && l < 26 && k == lo + l && lo + 26 <= |cs|
      requires forall q :: lo <= q < lo + 26 ==> cs[q] == InsertAt(word, j, Letter(q - lo))
      requires vect == Dedup(pre + Hits(words.Contents, cs[..k]))
      ensures v == Dedup(pre + Hits(words.Contents, cs[..k + 1]))
    {
      var str := word[..j] + [Letter(l)] + word[j..];
      assert str == cs[k] by {
        assert k - lo == l;
      }
      ProbeStep(words.Contents, pre, cs, k, vect, str);
      v := Probe(str, vect);
    }

    /** The deletion loop: every character removed in turn. */
    method ProbeDeletes(word: string, ghost pre: seq<string>, vect: seq<string>) returns (v: seq<string>)
      requires words.Valid() && vect == Dedup(pre)
      ensures v == Dedup(pre + Hits(words.Contents, Deletes(word)))
    {
      var dict := words.Contents;
      v := vect;
      assert pre + Hits(dict, Deletes(word)[..0]) == pre;
      for m := 0 to |word|
        invariant v == Dedup(pre + Hits(dict, Deletes(word)[..m]))
      {
        var str := word[..m] + word[m + 1..];
        assert str == Deletes(word)[m];
        ProbeStep(dict, pre, Deletes(word), m, v, str);
        v := Probe(str, v);
      }
      assert Deletes(word)[..|word|] == Deletes(word);
    }

    /** The replacement loop: every character replaced by every letter. */
    method ProbeReplaces(word: string, ghost pre: seq<string>, vect: seq<string>) returns (v: seq<string>)
      requires words.Valid() && vect == Dedup(pre)
      ensures v == Dedup(pre + Hits(words.Contents, Replaces(word)))
    {
      var dict := words.Contents;
      v := vect;
      assert pre + Hits(dict, Replaces(word)[..0]) == pre;
      ghost var k := 0;
      for n := 0 to |word|
        invariant k == 26 * n
        invariant v == Dedup(pre + Hits(dict, Replaces(word)[..k]))
      {
        ReplacesRow(word, n, k);
        v := ProbeReplacesAt(word, n, Replaces(word), k, pre, v);
        k := k + 26;
      }
      assert Replaces(word)[..k] == Replaces(word);
    }

    /**
      The inner replacement loop: position `n` replaced by every letter.
      `cs` holds these 26 candidates from position `lo` on.
     */
    method ProbeReplacesAt(word: string, n: nat, ghost cs: seq<string>, ghost lo: nat, ghost pre: seq<string>,
                           vect: seq<string>) returns (v: seq<string>)
      requires words.Valid() && n < |word| && lo + 26 <= |cs|
      requires forall k :: lo <= k < lo + 26 ==> cs[k] == ReplaceAt(word, n, Letter(k - lo))
      requires vect == Dedup(pre + Hits(words.Contents, cs[..lo]))
      ensures v == Dedup(pre + Hits(words.Contents, cs[..lo + 26]))
    {
      var dict := words.Contents;
      v := vect;
      ghost var k := lo;
      for o := 0 to 26
        invariant k == lo + o
        invariant v == Dedup(pre + Hits(dict, cs[..k]))
      {
        v := ProbeReplace(word, n, o, cs, lo, k, pre, v);
        k := k + 1;
      }
    }

    /** The body of the inner replacement loop: position `n` replaced by letter `o`. */
    method ProbeReplace(word: string, n: nat, o: nat, ghost cs: seq<string>, ghost lo: nat, ghost k: nat,
                        ghost pre: seq<string>, vect: seq<string>) returns (v: seq<string>)
      requires words.Valid() && n < |word| && o < 26 && k == lo + o && lo + 26 <= |cs|
      requires forall q :: lo <= q < lo + 26 ==> cs[q] == ReplaceAt(word, n, Letter(q - lo))
      requires vect == Dedup(pre + Hits(words.Contents, cs[..k]))
      ensures v == Dedup(pre + Hits(words.Contents, cs[..k + 1]))
    {
      var str := word[n := Letter(o)];
      assert str == cs[k] by {
        assert k - lo == o;
      }
      ProbeStep(words.Contents, pre, cs, k, vect, str);
      v := Probe(str, vect);
    }

    /**
      The split loop: a space inserted before every inner position, the text
      cut at its first space, and the text kept when both halves are words.
     */
    method ProbeSplits(word: string, ghost pre: seq<string>, vect: seq<string>) returns (v: seq<string>)
      requires words.Valid() && |word| >= 1 && vect == Dedup(pre)
      ensures v == Dedup(pre + SplitHits(words.Contents, word, |word|))
    {
      var dict := words.Contents;
      v := vect;
      assert pre + SplitHits(dict, word, 1) == pre;
      for p := 1 to |word|
        invariant v == Dedup(pre + SplitHits(dict, word, p))
      {
        v := ProbeSplit(word, p, pre, v);
      }
    }

    /**
      The body of the split loop: a space inserted before position `p`, the
      text cut at its first space, and the text kept when both halves are
      words and it is not listed yet.
     */
    method ProbeSplit(word: string, p: nat, ghost pre: seq<string>, vect: seq<string>) returns (v: seq<string>)
      requires words.Valid() && 1 <= p < |word|
      requires vect == Dedup(pre + SplitHits(words.Contents, word, p))
      ensures v == Dedup(pre + SplitHits(words.Contents, word, p + 1))
    {
      var str := word[..p] + " " + word[p..];
      assert str[p] == ' ';
      var pos := FirstIndex(str, ' ');
      var temp1 := str[..pos];
      var temp2 := str[pos + 1..];
      assert SplitAt(word, p) == Split(str, temp1, temp2);
      SplitStep(words.Contents, pre, word, p, vect, Split(str, temp1, temp2));
      var left := WordExists(temp1);
      var right := false;
      if left {
        right := WordExists(temp2);
      }
      if left && right && str !in vect {
        v := vect + [str];
      } else {
        v := vect;
      }
    }
  }
}
