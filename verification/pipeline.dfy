/**
 The whole query-to-answer resolution over the fixed store, as the chat
 handler runs it (search, then answer), and the replies it gives to
 particular questions.
 */
module Pipeline {
  import opened Strings
  import opened Knowledge
  import opened Retrieval
  import opened Response

  /** The reply to `query`: search the store, then pick the answer from what was found. */
  function Answer(query: string): (r: string)
    ensures r == Fallback <==> forall d :: d in KnowledgeBase ==> !Relevant(Keywords(query), d)
    ensures r != Fallback ==> exists d :: d in KnowledgeBase && r == d.content
  {
    var docs := SearchRelevantDocuments(query, KnowledgeBase);
    NeverFallbackWhenRetrieved(query, docs);
    GenerateResponse(query, docs)
  }

  /** The characters JavaScript's `trim` removes: white space and line terminators. */
  predicate IsTrimmed(c: char) {
    c == '\t' || c == '\n' || c == '\U{000B}' || c == '\U{000C}' || c == '\r' || c == ' ' ||
    c == '\U{00A0}' || c == '\U{1680}' || ('\U{2000}' <= c <= '\U{200A}') || c == '\U{2028}' || c == '\U{2029}' ||
    c == '\U{202F}' || c == '\U{205F}' || c == '\U{3000}' || c == '\U{FEFF}'
  }

  /** Every character of `s` is white space. */
  predicate AllTrimmed(s: string) {
    forall i :: 0 <= i < |s| ==> IsTrimmed(s[i])
  }

  /** Drops the leading white space of `s`: what is left is a suffix that starts with a kept character, if any. */
  function TrimStart(s: string): (r: string)
    ensures |r| <= |s| && r == s[|s| - |r|..]
    ensures forall i :: 0 <= i < |s| - |r| ==> IsTrimmed(s[i])
    ensures r == [] || !IsTrimmed(r[0])
    decreases |s|
  {
    if s != [] && IsTrimmed(s[0]) then TrimStart(s[1..]) else s
  }

  /** Drops the trailing white space of `s`: what is left is a prefix that ends with a kept character, if any. */
  function TrimEnd(s: string): (r: string)
    ensures |r| <= |s| && r == s[..|r|]
    ensures forall i :: |r| <= i < |s| ==> IsTrimmed(s[i])
    ensures r == [] || !IsTrimmed(r[|r| - 1])
    decreases |s|
  {
    if s != [] && IsTrimmed(s[|s| - 1]) then TrimEnd(s[..|s| - 1]) else s
  }

  /**
   `String.prototype.trim`: `s` without the white space at both ends. What
   is left starts and ends with a kept character, and nothing is left
   exactly when `s` is all white space.
   */
  function Trim(s: string): (r: string)
    ensures |r| <= |s|
    ensures r == [] || (!IsTrimmed(r[0]) && !IsTrimmed(r[|r| - 1]))
    ensures r == [] <==> AllTrimmed(s)
  {
    var t := TrimStart(s);
    assert t != [] ==> s[|s| - |t|] == t[0];
    TrimEnd(t)
  }

  /** Trimming drops white space only, and only at the two ends: the trimmed text is the middle of `s`. */
  lemma TrimKeepsMiddle(s: string)
    ensures exists front, back :: AllTrimmed(front) && AllTrimmed(back) && s == front + Trim(s) + back
  {
    var front, back := TrimPieces(s);
  }

  /** The white space `Trim` drops in front of and behind the text it keeps. */
  lemma TrimPieces(s: string) returns (front: string, back: string)
    ensures AllTrimmed(front) && AllTrimmed(back) && s == front + Trim(s) + back
  {
    front := TrimStartPiece(s);
    back := TrimEndPiece(TrimStart(s));
    AppendAssoc(front, TrimEnd(TrimStart(s)), back);
  }

  /** The white space `TrimStart` drops. */
  lemma TrimStartPiece(s: string) returns (front: string)
    ensures AllTrimmed(front) && s == front + TrimStart(s)
  {
    front := s[..|s| - |TrimStart(s)|];
  }

  /** The white space `TrimEnd` drops. */
  lemma TrimEndPiece(s: string) returns (back: string)
    ensures AllTrimmed(back) && s == TrimEnd(s) + back
  {
    back := s[|TrimEnd(s)|..];
    assert forall i :: 0 <= i < |back| ==> back[i] == s[|TrimEnd(s)| + i];
  }

  /** Concatenation is associative. */
  lemma AppendAssoc(a: string, b: string, c: string)
    ensures a + (b + c) == a + b + c
  {
  }

  /** `!input.trim()`: the input trims to the empty string, which happens exactly when it is all white space. */
  function Blank(input: string): (b: bool)
    ensures b <==> AllTrimmed(input)
  {
    Trim(input) == []
  }

  /**
   Sending a message: blank input is ignored and gets no reply; any other
   input, untrimmed, goes through search and answer selection.
   */
  function Reply(input: string): (r: Option<string>)
    ensures r.None? <==> Blank(input)
    ensures r.Some? ==> r.value == Fallback || exists d :: d in KnowledgeBase && r.value == d.content
  {
    if Blank(input) then None else Some(Answer(input))
  }

  /**
   The blank-input guard does not remove empty keywords: a non-blank input
   with a leading, trailing or doubled space makes every document relevant,
   so it retrieves the first three documents and is answered with one of
   them, whatever else it says.
   */
  lemma SpacedInputGetsFirstThree(input: string)
    requires (|input| > 0 && input[0] == ' ') || EmptyFieldAfterSep(input, ' ')
    requires !Blank(input)
    ensures SearchRelevantDocuments(input, KnowledgeBase) == KnowledgeBase[..MaxResults]
    ensures exists i :: 0 <= i < MaxResults && Reply(input) == Some(KnowledgeBase[i].content)
  {
    EmptyFieldQueryReturnsFirstThree(input, KnowledgeBase);
    KnowledgeBaseCategories();
    var docs := SearchRelevantDocuments(input, KnowledgeBase);
    var i :| 0 <= i < |docs| && GenerateResponse(input, docs) == docs[i].content;
    assert Reply(input) == Some(KnowledgeBase[i].content);
  }

  /**
   When the selected category belongs to exactly one document of a store,
   and that document is relevant and among the first three of the store,
   the reply is that document's content.
   */
  lemma AnswerFromUniqueCategory(query: string, store: seq<Document>, i: nat, category: Category)
    requires i < |store| && i < MaxResults && store[i].category == category
    requires forall j :: 0 <= j < |store| && store[j].category == category ==> j == i
    requires Relevant(Keywords(query), store[i])
    requires FirstFiring(Rules, ToLower(query)) == Some(category)
    ensures GenerateResponse(query, SearchRelevantDocuments(query, store)) == store[i].content
  {
    var docs := SearchRelevantDocuments(query, store);
    SearchKeepsEarlyMatch(query, store, i);
    GenerateResponseFollowsRules(query, docs);
    var found := FindByCategory(docs, category);
    assert found.Some?;
    assert found.value in store;
    var j :| 0 <= j < |store| && store[j] == found.value;
  }

  /** Each document of the store is the only one of its category. */
  lemma CategoryIsUnique(k: nat)
    requires k < |KnowledgeBase|
    ensures forall j :: 0 <= j < |KnowledgeBase| && KnowledgeBase[j].category == KnowledgeBase[k].category ==> j == k
  {
    KnowledgeBaseWellFormed();
  }

  /** The same, for the store itself, whose five documents all have different categories. */
  lemma AnswerIsDocumentOfCategory(query: string, i: nat, category: Category)
    requires i < MaxResults && KnowledgeBase[i].category == category
    requires Relevant(Keywords(query), KnowledgeBase[i])
    requires FirstFiring(Rules, ToLower(query)) == Some(category)
    ensures Answer(query) == KnowledgeBase[i].content
  {
    CategoryIsUnique(i);
    AnswerFromUniqueCategory(query, KnowledgeBase, i, category);
  }

  /**
   When the first document of a store is relevant and the selected category
   belongs to document `k` alone, the reply is the text of document `k` or of
   the first document, and of no other.
   */
  lemma AnswerIsFirstOrOfCategory(query: string, store: seq<Document>, k: nat, category: Category)
    requires k < |store| && store[k].category == category
    requires forall j :: 0 <= j < |store| && store[j].category == category ==> j == k
    requires Relevant(Keywords(query), store[0])
    requires FirstFiring(Rules, ToLower(query)) == Some(category)
    ensures var r := GenerateResponse(query, SearchRelevantDocuments(query, store));
            r == store[0].content || r == store[k].content
  {
    var docs := SearchRelevantDocuments(query, store);
    SearchKeepsRelevantFirst(query, store);
    GenerateResponseForCategory(query, docs, category);
    AnswerForFromStore(category, docs, store, k);
  }

  /** Documents drawn from a store where only document `k` has the category answer with it or with the first document. */
  lemma AnswerForFromStore(category: Category, docs: seq<Document>, store: seq<Document>, k: nat)
    requires docs != [] && forall d :: d in docs ==> d in store
    requires k < |store| && forall j :: 0 <= j < |store| && store[j].category == category ==> j == k
    ensures AnswerFor(category, docs) == docs[0].content || AnswerFor(category, docs) == store[k].content
  {
    var found := FindByCategory(docs, category);
    if found.Some? {
      assert found.value in store;
      var j :| 0 <= j < |store| && store[j] == found.value;
    }
  }

  /**
   Over the store: when the eligibility document is relevant and the courses
   group is selected, the reply is the eligibility or the courses text.
   */
  lemma CoursesGroupAnswer(query: string)
    requires Relevant(Keywords(query), KnowledgeBase[0])
    requires FirstFiring(Rules, ToLower(query)) == Some(Courses)
    ensures Answer(query) == KnowledgeBase[0].content || Answer(query) == KnowledgeBase[1].content
  {
    KnowledgeBaseCategories();
    CategoryIsUnique(1);
    AnswerIsFirstOrOfCategory(query, KnowledgeBase, 1, Courses);
  }

  /**
   When no store document of the selected category is among the first three
   and the first three are all relevant, the limit of three hides every
   document of that category: the reply is the first document's content.
   */
  lemma AnswerWhenCategoryCutOff(query: string, store: seq<Document>, category: Category)
    requires |store| >= MaxResults
    requires forall j :: 0 <= j < MaxResults ==> Relevant(Keywords(query), store[j])
    requires forall j :: 0 <= j < MaxResults ==> store[j].category != category
    requires FirstFiring(Rules, ToLower(query)) == Some(category)
    ensures SearchRelevantDocuments(query, store) == store[..MaxResults]
    ensures GenerateResponse(query, SearchRelevantDocuments(query, store)) == store[0].content
  {
    SearchKeepsRelevantPrefix(query, store, MaxResults);
    var docs := SearchRelevantDocuments(query, store);
    assert docs == store[..MaxResults];
    GenerateResponseForCategory(query, docs, category);
    assert FindByCategory(docs, category).None?;
  }
}
