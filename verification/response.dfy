/**
 The answer-selection step: a fixed fallback when nothing was retrieved;
 otherwise five keyword groups, tried in order against the lower-cased
 query, pick a category, and the answer is the content of the first
 retrieved document of that category, or of the first retrieved document.
 */
module Response {
  import opened Strings
  import opened Knowledge

  /** The reply when no document was retrieved. */
  const Fallback: string := "I don't have specific information about that topic. Please ask about eligibility criteria, courses offered, fees, scholarships, or contact information."

  datatype Option<T> = None | Some(value: T)

  /** `docs.find(doc => doc.type === category)`: the first document of the category, if any. */
  function FindByCategory(docs: seq<Document>, category: Category): (r: Option<Document>)
    ensures r.None? <==> forall i :: 0 <= i < |docs| ==> docs[i].category != category
    ensures r.Some? ==> exists i :: 0 <= i < |docs| && docs[i] == r.value && docs[i].category == category &&
                                    forall j :: 0 <= j < i ==> docs[j].category != category
    decreases |docs|
  {
    if docs == [] then None
    else if docs[0].category == category then Some(docs[0])
    else
      var r := FindByCategory(docs[1..], category);
      assert forall i :: 1 <= i < |docs| ==> docs[1..][i - 1] == docs[i];
      r
  }

  /**
   The content of the first document of `category`, or of the first
   document when there is none: the reply is always the text of a document
   of that category, unless no document has it.
   */
  function AnswerFor(category: Category, docs: seq<Document>): (r: string)
    requires docs != []
    ensures exists i :: 0 <= i < |docs| && r == docs[i].content &&
                        (docs[i].category == category || forall j :: 0 <= j < |docs| ==> docs[j].category != category)
  {
    match FindByCategory(docs, category)
    case Some(d) => d.content
    case None => docs[0].content
  }

  /** `generateResponse`, branch by branch as written. */
  function GenerateResponse(query: string, docs: seq<Document>): (r: string)
    ensures docs == [] ==> r == Fallback
    ensures docs != [] ==> exists i :: 0 <= i < |docs| && r == docs[i].content
  {
    if |docs| == 0 then Fallback
    else
      var q := ToLower(query);
      if Contains(q, "eligibility") || Contains(q, "criteria") || Contains(q, "requirement") then
        AnswerFor(Eligibility, docs)
      else if Contains(q, "course") || Contains(q, "program") || Contains(q, "branch") then
        AnswerFor(Courses, docs)
      else if Contains(q, "fee") || Contains(q, "cost") || Contains(q, "price") then
        AnswerFor(Fees, docs)
      else if Contains(q, "scholarship") || Contains(q, "financial aid") || Contains(q, "concession") then
        AnswerFor(Scholarships, docs)
      else if Contains(q, "contact") || Contains(q, "phone") || Contains(q, "email") || Contains(q, "address") then
        AnswerFor(Contact, docs)
      else
        docs[0].content
  }

  /** A keyword group and the category it selects. */
  datatype Rule = Rule(keywords: seq<string>, category: Category)

  /** The keyword groups, in the order they are tried. */
  const Rules: seq<Rule> := [
    Rule(["eligibility", "criteria", "requirement"], Eligibility),
    Rule(["course", "program", "branch"], Courses),
    Rule(["fee", "cost", "price"], Fees),
    Rule(["scholarship", "financial aid", "concession"], Scholarships),
    Rule(["contact", "phone", "email", "address"], Contact)
  ]

  /** Some keyword of the group occurs in the lower-cased query. */
  predicate Fires(rule: Rule, queryLower: string) {
    exists k :: k in rule.keywords && Contains(queryLower, k)
  }

  /** The category of the first group that fires, trying `rules` in order. */
  function FirstFiring(rules: seq<Rule>, queryLower: string): (r: Option<Category>)
    ensures r.None? <==> forall i :: 0 <= i < |rules| ==> !Fires(rules[i], queryLower)
    ensures r.Some? ==> exists i :: 0 <= i < |rules| && Fires(rules[i], queryLower) &&
                                    rules[i].category == r.value &&
                                    forall j :: 0 <= j < i ==> !Fires(rules[j], queryLower)
    decreases |rules|
  {
    if rules == [] then None
    else if Fires(rules[0], queryLower) then Some(rules[0].category)
    else
      var r := FirstFiring(rules[1..], queryLower);
      assert forall i :: 1 <= i < |rules| ==> rules[1..][i - 1] == rules[i];
      r
  }

  /**
   First match wins: the answer to a non-empty retrieval is fixed by the
   first keyword group in `Rules` that fires on the lower-cased query; with
   no group firing it is the content of the first retrieved document.
   */
  lemma GenerateResponseFollowsRules(query: string, docs: seq<Document>)
    requires docs != []
    ensures GenerateResponse(query, docs) ==
            match FirstFiring(Rules, ToLower(query))
            case Some(c) => AnswerFor(c, docs)
            case None => docs[0].content
  {
    var q := ToLower(query);
    FirstFiringOfRules(q);
  }

  /** When some group fires, the answer is the one for its category. */
  lemma GenerateResponseForCategory(query: string, docs: seq<Document>, category: Category)
    requires docs != [] && FirstFiring(Rules, ToLower(query)) == Some(category)
    ensures GenerateResponse(query, docs) == AnswerFor(category, docs)
  {
    GenerateResponseFollowsRules(query, docs);
  }

  /** The rule table tried in order, spelled out group by group. */
  lemma FirstFiringOfRules(q: string)
    ensures FirstFiring(Rules, q) ==
            if Contains(q, "eligibility") || Contains(q, "criteria") || Contains(q, "requirement") then Some(Eligibility)
            else if Contains(q, "course") || Contains(q, "program") || Contains(q, "branch") then Some(Courses)
            else if Contains(q, "fee") || Contains(q, "cost") || Contains(q, "price") then Some(Fees)
            else if Contains(q, "scholarship") || Contains(q, "financial aid") || Contains(q, "concession") then Some(Scholarships)
            else if Contains(q, "contact") || Contains(q, "phone") || Contains(q, "email") || Contains(q, "address") then Some(Contact)
            else None
  {
    FirstFiringUnrolled(q);
    GroupsFire(q);
  }

  /** `FirstFiring` over the five rules, unrolled. */
  lemma FirstFiringUnrolled(q: string)
    ensures FirstFiring(Rules, q) ==
            if Fires(Rules[0], q) then Some(Eligibility)
            else if Fires(Rules[1], q) then Some(Courses)
            else if Fires(Rules[2], q) then Some(Fees)
            else if Fires(Rules[3], q) then Some(Scholarships)
            else if Fires(Rules[4], q) then Some(Contact)
            else None
  {
    var r1 := Rules[1..];
    var r2 := r1[1..];
    var r3 := r2[1..];
    var r4 := r3[1..];
    assert r4[1..] == [];
    assert FirstFiring(r4, q) == if Fires(Rules[4], q) then Some(Contact) else None;
    assert FirstFiring(r3, q) == if Fires(Rules[3], q) then Some(Scholarships) else FirstFiring(r4, q);
    assert FirstFiring(r2, q) == if Fires(Rules[2], q) then Some(Fees) else FirstFiring(r3, q);
    assert FirstFiring(r1, q) == if Fires(Rules[1], q) then Some(Courses) else FirstFiring(r2, q);
  }

  /** Each group fires exactly when one of its listed keywords occurs in the query. */
  lemma GroupsFire(q: string)
    ensures Fires(Rules[0], q) <==> Contains(q, "eligibility") || Contains(q, "criteria") || Contains(q, "requirement")
    ensures Fires(Rules[1], q) <==> Contains(q, "course") || Contains(q, "program") || Contains(q, "branch")
    ensures Fires(Rules[2], q) <==> Contains(q, "fee") || Contains(q, "cost") || Contains(q, "price")
    ensures Fires(Rules[3], q) <==> Contains(q, "scholarship") || Contains(q, "financial aid") || Contains(q, "concession")
    ensures Fires(Rules[4], q) <==> Contains(q, "contact") || Contains(q, "phone") || Contains(q, "email") || Contains(q, "address")
  {
    FiresThree(Rules[0], q, "eligibility", "criteria", "requirement");
    FiresThree(Rules[1], q, "course", "program", "branch");
    FiresThree(Rules[2], q, "fee", "cost", "price");
    FiresThree(Rules[3], q, "scholarship", "financial aid", "concession");
    FiresFour(Rules[4], q, "contact", "phone", "email", "address");
  }

  lemma FiresThree(rule: Rule, q: string, a: string, b: string, c: string)
    requires rule.keywords == [a, b, c]
    ensures Fires(rule, q) <==> Contains(q, a) || Contains(q, b) || Contains(q, c)
  {
    assert a in rule.keywords && b in rule.keywords && c in rule.keywords;
  }

  lemma FiresFour(rule: Rule, q: string, a: string, b: string, c: string, d: string)
    requires rule.keywords == [a, b, c, d]
    ensures Fires(rule, q) <==> Contains(q, a) || Contains(q, b) || Contains(q, c) || Contains(q, d)
  {
    assert a in rule.keywords && b in rule.keywords && c in rule.keywords && d in rule.keywords;
  }

  /**
   The answer for a category is the content of the first retrieved document
   of that category, or of the first retrieved document when none has it.
   */
  lemma AnswerForPicksFirstOfCategory(category: Category, docs: seq<Document>)
    requires docs != []
    ensures (exists i :: 0 <= i < |docs| && docs[i].category == category) ==>
            exists i :: 0 <= i < |docs| && AnswerFor(category, docs) == docs[i].content &&
                        docs[i].category == category && forall j :: 0 <= j < i ==> docs[j].category != category
    ensures (forall i :: 0 <= i < |docs| ==> docs[i].category != category) ==> AnswerFor(category, docs) == docs[0].content
  {
  }

  /** No document of the store has the fallback text as its content. */
  lemma FallbackNotInStore()
    ensures forall d :: d in KnowledgeBase ==> d.content != Fallback
  {
    assert |Fallback| < 180;
    forall d | d in KnowledgeBase ensures d.content != Fallback {
      assert |d.content| >= 180;
    }
  }

  /** When the retrieved documents come from the store, a non-empty retrieval never yields the fallback. */
  lemma NeverFallbackWhenRetrieved(query: string, docs: seq<Document>)
    requires forall d :: d in docs ==> d in KnowledgeBase
    ensures GenerateResponse(query, docs) == Fallback <==> docs == []
  {
    FallbackNotInStore();
    if docs != [] {
      var i :| 0 <= i < |docs| && GenerateResponse(query, docs) == docs[i].content;
      assert docs[i] in KnowledgeBase;
    }
  }
}
