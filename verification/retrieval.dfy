/**
 The retrieval step: the query is lower-cased and split on single spaces;
 a document is relevant when some resulting keyword occurs in its
 lower-cased content or title; the relevant documents are kept in store
 order and the first three are returned.
 */
module Retrieval {
  import opened Strings
  import opened Knowledge

  /** The number of documents the search returns at most. */
  const MaxResults: nat := 3

  function Min(a: int, b: int): int {
    if a <= b then a else b
  }

  /** The keywords of a query: its lower-cased text split on every single space, empty fields included. */
  function Keywords(query: string): (r: seq<string>)
    ensures |r| >= 1
    ensures forall k :: 0 <= k < |r| ==> ' ' !in r[k]
    ensures Join(r, ' ') == ToLower(query)
  {
    JoinSplit(ToLower(query), ' ');
    Split(ToLower(query), ' ')
  }

  /** `keyword` occurs in the lower-cased content or the lower-cased title of `doc`. */
  function KeywordHits(keyword: string, doc: Document): (b: bool)
    ensures b <==> (exists i :: OccursAt(ToLower(doc.content), keyword, i)) || (exists i :: OccursAt(ToLower(doc.title), keyword, i))
  {
    ContainsIffOccurs(ToLower(doc.content), keyword);
    ContainsIffOccurs(ToLower(doc.title), keyword);
    Contains(ToLower(doc.content), keyword) || Contains(ToLower(doc.title), keyword)
  }

  /** Some keyword hits `doc`; an empty keyword hits every document. */
  function Relevant(keywords: seq<string>, doc: Document): (b: bool)
    ensures "" in keywords ==> b
  {
    ContainsEmpty(ToLower(doc.content));
    exists k :: k in keywords && KeywordHits(k, doc)
  }

  /** A document is relevant exactly when one of the keywords occurs at some position of its lower-cased content or title. */
  lemma RelevantIffOccurs(keywords: seq<string>, doc: Document)
    ensures Relevant(keywords, doc) <==>
            exists k, i :: 0 <= k < |keywords| &&
                           (OccursAt(ToLower(doc.content), keywords[k], i) || OccursAt(ToLower(doc.title), keywords[k], i))
  {
    var content, title := ToLower(doc.content), ToLower(doc.title);
    if Relevant(keywords, doc) {
      var k :| k in keywords && KeywordHits(k, doc);
      var n :| 0 <= n < |keywords| && keywords[n] == k;
      var i :| OccursAt(content, k, i) || OccursAt(title, k, i);
      assert OccursAt(content, keywords[n], i) || OccursAt(title, keywords[n], i);
    }
    if exists k, i :: 0 <= k < |keywords| && (OccursAt(content, keywords[k], i) || OccursAt(title, keywords[k], i)) {
      var k, i :| 0 <= k < |keywords| && (OccursAt(content, keywords[k], i) || OccursAt(title, keywords[k], i));
      assert KeywordHits(keywords[k], doc);
    }
  }

  /** The relevant documents of `store`, in store order. */
  function FilterRelevant(store: seq<Document>, keywords: seq<string>): (r: seq<Document>)
    ensures |r| <= |store|
    ensures forall d :: d in r ==> d in store && Relevant(keywords, d)
    ensures forall d :: d in store && Relevant(keywords, d) ==> d in r
    decreases |store|
  {
    if store == [] then []
    else
      var init := FilterRelevant(store[..|store| - 1], keywords);
      var last := store[|store| - 1];
      assert forall d :: d in store ==> d in store[..|store| - 1] || d == last by {
        assert store == store[..|store| - 1] + [last];
      }
      if Relevant(keywords, last) then init + [last] else init
  }

  /** `idx` lists positions below `n` in strictly increasing order. */
  predicate Increasing(idx: seq<nat>, n: nat) {
    && (forall k :: 0 <= k < |idx| ==> idx[k] < n)
    && (forall k, l :: 0 <= k < l < |idx| ==> idx[k] < idx[l])
  }

  /**
   The positions of the relevant documents of `store`: every relevant
   position exactly once, in increasing order.
   */
  function RelevantPositions(store: seq<Document>, keywords: seq<string>): (idx: seq<nat>)
    ensures Increasing(idx, |store|)
    ensures forall i :: 0 <= i < |store| ==> (i in idx <==> Relevant(keywords, store[i]))
    decreases |store|
  {
    if store == [] then []
    else
      var n := |store| - 1;
      var init := RelevantPositions(store[..n], keywords);
      assert forall i :: 0 <= i < n ==> store[..n][i] == store[i];
      if Relevant(keywords, store[n]) then init + [n] else init
  }

  /** The filter is the store read at the relevant positions, in order: a stable filter. */
  lemma {:induction false} FilterIsStable(store: seq<Document>, keywords: seq<string>)
    ensures |FilterRelevant(store, keywords)| == |RelevantPositions(store, keywords)|
    ensures forall k :: 0 <= k < |FilterRelevant(store, keywords)| ==>
              FilterRelevant(store, keywords)[k] == store[RelevantPositions(store, keywords)[k]]
    decreases |store|
  {
    if store != [] {
      var n := |store| - 1;
      FilterIsStable(store[..n], keywords);
      var init := FilterRelevant(store[..n], keywords);
      var idx := RelevantPositions(store[..n], keywords);
      var r := FilterRelevant(store, keywords);
      var all := RelevantPositions(store, keywords);
      assert r == if Relevant(keywords, store[n]) then init + [store[n]] else init;
      assert all == if Relevant(keywords, store[n]) then idx + [n] else idx;
      forall k | 0 <= k < |r| ensures r[k] == store[all[k]] {
        if k < |init| {
          assert r[k] == init[k] == store[..n][idx[k]];
          assert all[k] == idx[k] < n;
        }
      }
    }
  }

  /** `searchRelevantDocuments`: the relevant documents in store order, cut to the first `MaxResults`. */
  function SearchRelevantDocuments(query: string, store: seq<Document>): (r: seq<Document>)
    ensures |r| <= MaxResults
    ensures r <= FilterRelevant(store, Keywords(query))
    ensures |r| == Min(MaxResults, |FilterRelevant(store, Keywords(query))|)
    ensures forall d :: d in r ==> d in store && Relevant(Keywords(query), d)
    ensures r == [] <==> forall d :: d in store ==> !Relevant(Keywords(query), d)
  {
    var matching := FilterRelevant(store, Keywords(query));
    assert |matching| > 0 ==> matching[0] in matching;
    if |matching| <= MaxResults then matching
    else matching[..MaxResults]
  }

  /**
   The search result is exactly the first min(3, n) relevant documents of
   the store, n being how many there are, each read at its position in the
   store; the positions increase, so the result is a subsequence of the
   store in store order.
   */
  lemma SearchIsFirstRelevant(query: string, store: seq<Document>)
    ensures var r := SearchRelevantDocuments(query, store);
            var idx := RelevantPositions(store, Keywords(query));
            && |r| == Min(MaxResults, |idx|)
            && Increasing(idx[..|r|], |store|)
            && forall k :: 0 <= k < |r| ==> r[k] == store[idx[k]]
  {
    var keywords := Keywords(query);
    var idx := RelevantPositions(store, keywords);
    FilterIsStable(store, keywords);
    var r := SearchRelevantDocuments(query, store);
    assert forall k :: 0 <= k < |r| ==> r[k] == FilterRelevant(store, keywords)[k];
  }

  /** The positions of a strictly increasing list of naturals are at least their rank. */
  lemma {:induction false} IncreasingAtLeastRank(idx: seq<nat>, n: nat, k: nat)
    requires Increasing(idx, n) && k < |idx|
    ensures k <= idx[k]
    decreases k
  {
    if k > 0 {
      IncreasingAtLeastRank(idx, n, k - 1);
    }
  }

  /** A relevant document among the first three of the store is always returned, at a rank no later than its position. */
  lemma SearchKeepsEarlyMatch(query: string, store: seq<Document>, i: nat)
    requires i < |store| && i < MaxResults && Relevant(Keywords(query), store[i])
    ensures exists k :: 0 <= k <= i && k < |SearchRelevantDocuments(query, store)| &&
                        SearchRelevantDocuments(query, store)[k] == store[i]
  {
    var r := SearchRelevantDocuments(query, store);
    var idx := RelevantPositions(store, Keywords(query));
    SearchIsFirstRelevant(query, store);
    var k :| 0 <= k < |idx| && idx[k] == i;
    IncreasingAtLeastRank(idx, |store|, k);
    assert r[k] == store[i];
  }

  /** A relevant first document of the store always comes first in the result. */
  lemma SearchKeepsRelevantFirst(query: string, store: seq<Document>)
    requires |store| > 0 && Relevant(Keywords(query), store[0])
    ensures SearchRelevantDocuments(query, store) != [] && SearchRelevantDocuments(query, store)[0] == store[0]
  {
    SearchKeepsEarlyMatch(query, store, 0);
  }

  /** An increasing list of naturals that holds each of `0 .. n-1` starts with exactly them. */
  lemma {:induction false} IncreasingStartsWith(idx: seq<nat>, bound: nat, n: nat)
    requires Increasing(idx, bound)
    requires forall i :: 0 <= i < n ==> i in idx
    ensures n <= |idx| && forall k :: 0 <= k < n ==> idx[k] == k
    decreases n
  {
    if n > 0 {
      IncreasingStartsWith(idx, bound, n - 1);
      assert n - 1 in idx;
      var m :| 0 <= m < |idx| && idx[m] == n - 1;
      IncreasingAtLeastRank(idx, bound, m);
    }
  }

  /** When the first `n` (at most three) documents of the store are all relevant, the result starts with them. */
  lemma SearchKeepsRelevantPrefix(query: string, store: seq<Document>, n: nat)
    requires n <= MaxResults && n <= |store|
    requires forall i :: 0 <= i < n ==> Relevant(Keywords(query), store[i])
    ensures n <= |SearchRelevantDocuments(query, store)|
    ensures SearchRelevantDocuments(query, store)[..n] == store[..n]
  {
    var r := SearchRelevantDocuments(query, store);
    var idx := RelevantPositions(store, Keywords(query));
    SearchIsFirstRelevant(query, store);
    IncreasingStartsWith(idx, |store|, n);
    assert forall k :: 0 <= k < n ==> r[k] == store[k];
  }

  /** The empty keyword occurs in every text, so it makes every document relevant. */
  lemma {:induction false} FilterWithEmptyKeyword(store: seq<Document>, keywords: seq<string>)
    requires [] in keywords
    ensures FilterRelevant(store, keywords) == store
    decreases |store|
  {
    if store != [] {
      var n := |store| - 1;
      FilterWithEmptyKeyword(store[..n], keywords);
      assert KeywordHits([], store[n]);
      assert store[..n] + [store[n]] == store;
    }
  }

  /**
   A query that is empty, starts or ends with a space, or holds two spaces
   in a row yields an empty keyword, and so returns the first three
   documents of the store whatever else it says.
   */
  lemma EmptyFieldQueryReturnsFirstThree(query: string, store: seq<Document>)
    requires query == [] || query[0] == ' ' || EmptyFieldAfterSep(query, ' ')
    ensures SearchRelevantDocuments(query, store) == store[..Min(MaxResults, |store|)]
  {
    var q := ToLower(query);
    ToLowerKeepsNonLetters(query, ' ');
    if EmptyFieldAfterSep(query, ' ') {
      var i :| 0 <= i < |query| && query[i] == ' ' && (i + 1 == |query| || query[i + 1] == ' ');
      assert q[i] == ' ' && (i + 1 == |q| || q[i + 1] == ' ');
    }
    EmptyFieldIff(q, ' ');
    FilterWithEmptyKeyword(store, Keywords(query));
  }
}
