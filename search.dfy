/**
 * The multi-word search of `findRegion`: split the query on spaces, keep
 * the composite keys that contain every word, sort them, and look each one
 * up in the key dictionary.
 */
module Search {
  import opened StringOps
  import opened Sorting
  import opened Regions
  import opened KeyedIndex
  import opened IndexEntries

  /** The words of a search: `query.split(' ')`, each lowered. */
  function QueryWords(query: string): (words: seq<string>)
    ensures |words| == |Split(query, ' ')|
    ensures forall i :: 0 <= i < |words| ==> words[i] == Lower(Split(query, ' ')[i])
  {
    var parts := Split(query, ' ');
    seq(|parts|, i requires 0 <= i < |parts| => Lower(parts[i]))
  }

  /** Every word occurs somewhere in `key`. */
  ghost predicate ContainsAll(key: string, words: seq<string>) {
    forall i :: 0 <= i < |words| ==> Contains(key, words[i])
  }

  /** `words.every(word => !!~key.indexOf(word))`: no word has index -1 in `key`. */
  predicate MatchesAll(words: seq<string>, key: string)
    ensures MatchesAll(words, key) <==> ContainsAll(key, words)
  {
    forall i :: 0 <= i < |words| ==> IndexOf(key, words[i]) != -1
  }

  /** `keys.filter(...)`: the keys that match every word, in their original order. */
  function SelectKeys(keys: seq<string>, words: seq<string>): (selected: seq<string>)
    ensures forall x :: multiset(selected)[x] == if MatchesAll(words, x) then multiset(keys)[x] else 0
    decreases |keys|
  {
    if keys == [] then []
    else
      var rest := SelectKeys(keys[1..], words);
      assert keys == [keys[0]] + keys[1..];
      if MatchesAll(words, keys[0]) then [keys[0]] + rest else rest
  }

  /** An element that satisfies `p` can be dropped from a sequence without changing whether all of it does. */
  lemma EveryWithoutItem<T>(p: T -> bool, u: seq<T>, w: T, v: seq<T>)
    requires p(w)
    ensures (forall i :: 0 <= i < |u + [w] + v| ==> p((u + [w] + v)[i])) <==> (forall i :: 0 <= i < |u + v| ==> p((u + v)[i]))
  {
    var long, short := u + [w] + v, u + v;
    if forall i :: 0 <= i < |long| ==> p(long[i]) {
      forall i | 0 <= i < |short| ensures p(short[i]) {
        if i < |u| {
          assert short[i] == long[i];
        } else {
          assert short[i] == long[i + 1];
        }
      }
    }
    if forall i :: 0 <= i < |short| ==> p(short[i]) {
      forall i | 0 <= i < |long| ensures p(long[i]) {
        if i < |u| {
          assert long[i] == short[i];
        } else if i > |u| {
          assert long[i] == short[i - 1];
        }
      }
    }
  }

  /** A word that every key matches can be dropped from the words without changing which keys match. */
  lemma MatchesAllWithoutWord(u: seq<string>, w: string, v: seq<string>, key: string)
    requires MatchesAll([w], key)
    ensures MatchesAll(u + [w] + v, key) == MatchesAll(u + v, key)
  {
    assert [w][0] == w;
    EveryWithoutItem(word => IndexOf(key, word) != -1, u, w, v);
  }

  /** A word that every key matches, wherever it stands among the words, leaves the selection as it was. */
  lemma {:induction false} SelectKeysIgnoresMatchedWord(keys: seq<string>, u: seq<string>, w: string, v: seq<string>)
    requires forall x :: MatchesAll([w], x)
    ensures SelectKeys(keys, u + [w] + v) == SelectKeys(keys, u + v)
    decreases |keys|
  {
    if keys != [] {
      MatchesAllWithoutWord(u, w, v, keys[0]);
      SelectKeysIgnoresMatchedWord(keys[1..], u, w, v);
    }
  }

  /** Words that every key matches select every key. */
  lemma {:induction false} SelectKeysAll(keys: seq<string>, words: seq<string>)
    requires forall x :: MatchesAll(words, x)
    ensures SelectKeys(keys, words) == keys
    decreases |keys|
  {
    if keys != [] {
      assert MatchesAll(words, keys[0]);
      SelectKeysAll(keys[1..], words);
      assert keys == [keys[0]] + keys[1..];
    }
  }

  /** The empty word occurs in every key. */
  lemma EmptyWordMatchesEverything()
    ensures forall x :: MatchesAll([""], x)
  {
    forall x ensures MatchesAll([""], x) {
      IndexOfEmpty(x);
    }
  }

  /**
   * The keys `findRegion` returns regions for: those containing every word
   * of the query, each as often as it is in `keys`, in ascending order.
   */
  function SearchKeys(keys: seq<string>, query: string): (found: seq<string>)
    ensures Sorted(found)
    ensures forall x :: multiset(found)[x] == if ContainsAll(x, QueryWords(query)) then multiset(keys)[x] else 0
  {
    Sort(SelectKeys(keys, QueryWords(query)))
  }

  /** `sorted.map(acr => indexPerAll[acr])`. */
  function LookupAll(dict: map<string, IndexedRegion>, keys: seq<string>): (regions: seq<IndexedRegion>)
    requires forall k :: k in keys ==> k in dict
    ensures |regions| == |keys|
    ensures forall i :: 0 <= i < |keys| ==> regions[i] == dict[keys[i]]
  {
    seq(|keys|, i requires 0 <= i < |keys| => dict[keys[i]])
  }

  /** `findRegion` over the key list `keys` and the dictionary `dict` filled from it. */
  function FindIn(keys: seq<string>, dict: map<string, IndexedRegion>, query: string): seq<IndexedRegion>
    requires forall k :: k in keys ==> k in dict
  {
    var found := SearchKeys(keys, query);
    assert forall k :: k in found ==> k in keys by {
      forall k | k in found ensures k in keys {
        assert multiset(found)[k] > 0;
      }
    }
    LookupAll(dict, found)
  }

  /** Every key of `rs` is in the key dictionary built from `rs`. */
  lemma KeysIndexed(rs: seq<IndexedRegion>)
    ensures forall k :: k in KeysOf(rs) ==> k in LastWins(KeysOf(rs), rs)
  {
    forall k | k in KeysOf(rs) ensures k in LastWins(KeysOf(rs), rs) {
      KeyLookup(rs, k);
    }
  }

  /** What `findRegion` answers once `buildIndex` has indexed exactly the regions `rs`. */
  function Answer(rs: seq<IndexedRegion>, query: string): seq<IndexedRegion> {
    KeysIndexed(rs);
    FindIn(KeysOf(rs), LastWins(KeysOf(rs), rs), query)
  }

  /** The answer holds one region per key that `SearchKeys` finds, in the same order. */
  lemma AnswerKeys(rs: seq<IndexedRegion>, query: string)
    ensures KeysOf(Answer(rs, query)) == SearchKeys(KeysOf(rs), query)
    ensures forall i :: 0 <= i < |Answer(rs, query)| ==>
              && CompositeKey(Answer(rs, query)[i]) in KeysOf(rs)
              && Answer(rs, query)[i] == rs[LastIndex(KeysOf(rs), CompositeKey(Answer(rs, query)[i]))]
  {
    var keys := KeysOf(rs);
    var found := SearchKeys(keys, query);
    var regions := Answer(rs, query);
    forall i | 0 <= i < |found| ensures found[i] in keys && CompositeKey(regions[i]) == found[i]
                                        && regions[i] == rs[LastIndex(keys, found[i])] {
      assert multiset(found)[found[i]] > 0;
      KeyLookup(rs, found[i]);
    }
  }

  /**
   * The answer to `query`: the regions whose composite key contains every
   * word of the query, one for each time that key was indexed, in ascending
   * key order, each being the region indexed last under its key.
   */
  lemma AnswerSpec(rs: seq<IndexedRegion>, query: string)
    ensures forall x :: multiset(KeysOf(Answer(rs, query)))[x] ==
              if ContainsAll(x, QueryWords(query)) then multiset(KeysOf(rs))[x] else 0
    ensures forall i, j :: 0 <= i < j < |Answer(rs, query)| ==>
              LexLe(CompositeKey(Answer(rs, query)[i]), CompositeKey(Answer(rs, query)[j]))
    ensures forall i :: 0 <= i < |Answer(rs, query)| ==>
              && Answer(rs, query)[i] in rs
              && ContainsAll(CompositeKey(Answer(rs, query)[i]), QueryWords(query))
              && Answer(rs, query)[i] == rs[LastIndex(KeysOf(rs), CompositeKey(Answer(rs, query)[i]))]
  {
    AnswerKeys(rs, query);
    var regions := Answer(rs, query);
    var found := KeysOf(regions);
    forall i | 0 <= i < |regions| ensures ContainsAll(CompositeKey(regions[i]), QueryWords(query)) {
      assert found[i] in multiset(found);
    }
  }

  /** A region whose key contains every word is answered, by the region indexed last under that key. */
  lemma AnswerComplete(rs: seq<IndexedRegion>, query: string, i: nat)
    requires i < |rs| && ContainsAll(CompositeKey(rs[i]), QueryWords(query))
    ensures CompositeKey(rs[i]) in KeysOf(rs)
    ensures rs[LastIndex(KeysOf(rs), CompositeKey(rs[i]))] in Answer(rs, query)
  {
    var key := CompositeKey(rs[i]);
    var keys := KeysOf(rs);
    assert keys[i] == key;
    AnswerKeys(rs, query);
    var regions := Answer(rs, query);
    assert multiset(KeysOf(regions))[key] == multiset(keys)[key] > 0;
    assert key in KeysOf(regions);
    var j :| 0 <= j < |regions| && KeysOf(regions)[j] == key;
    assert regions[j] == rs[LastIndex(keys, key)];
  }

  /** The words of the empty query: the single empty word. */
  lemma EmptyQueryWords()
    ensures QueryWords("") == [""]
  {
  }

  /**
   * The empty query matches every region: the answer holds one region per
   * indexed region, with all the keys in ascending order.
   */
  lemma AnswerEmptyQuery(rs: seq<IndexedRegion>)
    ensures KeysOf(Answer(rs, "")) == Sort(KeysOf(rs))
    ensures |Answer(rs, "")| == |rs|
  {
    EmptyQueryWords();
    EmptyWordMatchesEverything();
    SelectKeysAll(KeysOf(rs), [""]);
    AnswerKeys(rs, "");
    assert |multiset(Sort(KeysOf(rs)))| == |multiset(KeysOf(rs))|;
  }

  /** A trailing space adds the empty word to the query. */
  lemma QueryWordsTrailingSpace(query: string)
    ensures QueryWords(query + " ") == QueryWords(query) + [""]
  {
    SplitTrailingSeparator(query, ' ');
    assert Lower("") == "";
  }

  /** A space between two parts of a query separates their words. */
  lemma QueryWordsAtSpace(a: string, b: string)
    ensures QueryWords(a + " " + b) == QueryWords(a) + QueryWords(b)
  {
    SplitAtSeparator(a, b, ' ');
  }

  /** A trailing space in the query does not change the answer. */
  lemma AnswerTrailingSpace(rs: seq<IndexedRegion>, query: string)
    ensures Answer(rs, query + " ") == Answer(rs, query)
  {
    QueryWordsTrailingSpace(query);
    EmptyWordMatchesEverything();
    SelectKeysIgnoresMatchedWord(KeysOf(rs), QueryWords(query), "", []);
    assert QueryWords(query) + [""] + [] == QueryWords(query) + [""];
    assert QueryWords(query) + [] == QueryWords(query);
  }

  /** Two spaces in a row put one empty word between the words around them. */
  lemma QueryWordsSpaceRun(a: string, b: string)
    ensures QueryWords(a + "  " + b) == QueryWords(a) + [""] + QueryWords(b)
  {
    assert a + "  " + b == a + " " + (" " + b);
    assert " " + b == "" + " " + b;
    QueryWordsAtSpace(a, " " + b);
    QueryWordsAtSpace("", b);
    EmptyQueryWords();
  }

  /** Two spaces in a row answer like one: the empty word between them matches every key. */
  lemma AnswerSpaceRun(rs: seq<IndexedRegion>, a: string, b: string)
    ensures Answer(rs, a + "  " + b) == Answer(rs, a + " " + b)
  {
    QueryWordsSpaceRun(a, b);
    QueryWordsAtSpace(a, b);
    EmptyWordMatchesEverything();
    SelectKeysIgnoresMatchedWord(KeysOf(rs), QueryWords(a), "", QueryWords(b));
  }

  /**
   * A query in lower case that occurs as a whole in a region's key finds that
   * region: each of its words occurs in the query, so in the key.
   */
  lemma AnswerContainedQuery(rs: seq<IndexedRegion>, query: string, i: nat)
    requires i < |rs| && Lower(query) == query
    requires Contains(CompositeKey(rs[i]), query)
    ensures CompositeKey(rs[i]) in KeysOf(rs)
    ensures rs[LastIndex(KeysOf(rs), CompositeKey(rs[i]))] in Answer(rs, query)
  {
    var parts := Split(query, ' ');
    var words := QueryWords(query);
    SplitPartsOccur(query, ' ');
    forall j | 0 <= j < |words| ensures Contains(CompositeKey(rs[i]), words[j]) {
      LowerFixedContained(query, parts[j]);
      ContainsTransitive(CompositeKey(rs[i]), query, parts[j]);
    }
    AnswerComplete(rs, query, i);
  }
}
