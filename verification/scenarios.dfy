/**
 The answers to particular questions: the quick questions the chat offers
 as one-click buttons, and one typed question. Each question is lower-cased
 and split as the search does; the keyword groups it fires and the store
 documents it matches are read off the literal texts, and the general
 lemmas of the resolution turn them into the reply.
 */
module Scenarios {
  import opened Strings
  import opened Knowledge
  import opened Retrieval
  import opened Response
  import opened Pipeline

  /** A lower-cased query holding "eligibility" selects the eligibility group. */
  lemma SelectsEligibility(q: string)
    requires Contains(q, "eligibility")
    ensures FirstFiring(Rules, q) == Some(Eligibility)
  {
    FirstFiringOfRules(q);
  }

  /** A lower-cased query without the letter "i" that holds "course" selects the courses group. */
  lemma SelectsCourses(q: string)
    requires 'i' !in q && Contains(q, "course")
    ensures FirstFiring(Rules, q) == Some(Courses)
  {
    ContainsNeedsChar(q, "eligibility", 'i');
    ContainsNeedsChar(q, "criteria", 'i');
    ContainsNeedsChar(q, "requirement", 'i');
    FirstFiringOfRules(q);
  }

  /**
   A lower-cased query without the letters "y", "c" and "q" that holds
   "program" selects the courses group, whatever else it holds.
   */
  lemma SelectsCoursesByProgram(q: string)
    requires 'y' !in q && 'c' !in q && 'q' !in q && Contains(q, "program")
    ensures FirstFiring(Rules, q) == Some(Courses)
  {
    ContainsNeedsChar(q, "eligibility", 'y');
    ContainsNeedsChar(q, "criteria", 'c');
    ContainsNeedsChar(q, "requirement", 'q');
    FirstFiringOfRules(q);
  }

  /** A lower-cased query without the letters "i" and "r" that holds "fee" selects the fees group. */
  lemma SelectsFees(q: string)
    requires 'i' !in q && 'r' !in q && Contains(q, "fee")
    ensures FirstFiring(Rules, q) == Some(Fees)
  {
    ContainsNeedsChar(q, "eligibility", 'i');
    ContainsNeedsChar(q, "criteria", 'i');
    ContainsNeedsChar(q, "requirement", 'i');
    ContainsNeedsChar(q, "course", 'r');
    ContainsNeedsChar(q, "program", 'r');
    ContainsNeedsChar(q, "branch", 'r');
    FirstFiringOfRules(q);
  }

  /** Without "g" and "r", no keyword of the eligibility or courses groups occurs. */
  lemma FirstGroupsSilent(q: string)
    requires 'g' !in q && 'r' !in q
    ensures !(Contains(q, "eligibility") || Contains(q, "criteria") || Contains(q, "requirement"))
    ensures !(Contains(q, "course") || Contains(q, "program") || Contains(q, "branch"))
  {
    ContainsNeedsChar(q, "eligibility", 'g');
    ContainsNeedsChar(q, "criteria", 'r');
    ContainsNeedsChar(q, "requirement", 'r');
    ContainsNeedsChar(q, "course", 'r');
    ContainsNeedsChar(q, "program", 'r');
    ContainsNeedsChar(q, "branch", 'r');
  }

  /** Without "r", "l", "fe", "os" and "nc", no keyword of the fees or scholarships groups occurs. */
  lemma MiddleGroupsSilent(q: string)
    requires 'r' !in q && 'l' !in q
    requires !HasPair(q, 'f', 'e') && !HasPair(q, 'o', 's') && !HasPair(q, 'n', 'c')
    ensures !(Contains(q, "fee") || Contains(q, "cost") || Contains(q, "price"))
    ensures !(Contains(q, "scholarship") || Contains(q, "financial aid") || Contains(q, "concession"))
  {
    ContainsNeedsPair(q, "fee", 0);
    ContainsNeedsPair(q, "cost", 1);
    ContainsNeedsChar(q, "price", 'r');
    ContainsNeedsChar(q, "scholarship", 'r');
    ContainsNeedsChar(q, "financial aid", 'l');
    ContainsNeedsPair(q, "concession", 2);
  }

  /**
   A lower-cased query without the letters "g", "r" and "l" and without the
   pairs "fe", "os" and "nc" that holds "contact" selects the contact group.
   */
  lemma SelectsContact(q: string)
    requires 'g' !in q && 'r' !in q && 'l' !in q
    requires !HasPair(q, 'f', 'e') && !HasPair(q, 'o', 's') && !HasPair(q, 'n', 'c')
    requires Contains(q, "contact")
    ensures FirstFiring(Rules, q) == Some(Contact)
  {
    FirstGroupsSilent(q);
    MiddleGroupsSilent(q);
    FirstFiringOfRules(q);
  }

  /** Questions the chat offers as one-click buttons, and one typed question. */
  const EligibilityQuestion: string := "What are the eligibility criteria for B.Tech?"
  const CoursesQuestion: string := "What courses do you offer?"
  const ContactQuestion: string := "How can I contact the admission office?"
  const FeesQuestion: string := "What are the fees for different programs?"
  const HostelFeesQuestion: string := "tell me about hostel fees"

  /** Where "eligibility" stands in the first quick question. */
  lemma EligibilityQuestionWords()
    ensures OccursAt(ToLower(EligibilityQuestion), "eligibility", 13)
    ensures ToLower(EligibilityQuestion)[12] == ' ' && ToLower(EligibilityQuestion)[24] == ' '
  {
    OccursLowered(EligibilityQuestion, "eligibility", 13);
  }

  /** The first quick question holds the keyword "eligibility" and selects the eligibility group. */
  lemma EligibilityQuestionFacts()
    ensures "eligibility" in Keywords(EligibilityQuestion)
    ensures FirstFiring(Rules, ToLower(EligibilityQuestion)) == Some(Eligibility)
  {
    var q := ToLower(EligibilityQuestion);
    EligibilityQuestionWords();
    FieldAt(q, "eligibility", 13, ' ');
    OccursThenContains(q, "eligibility", 13);
    SelectsEligibility(q);
  }

  /** The eligibility document's title holds "eligibility" once lower-cased. */
  lemma EligibilityTitleFacts()
    ensures KeywordHits("eligibility", KnowledgeBase[0])
  {
    OccursLowered(Title1, "eligibility", 7);
    OccursThenContains(ToLower(Title1), "eligibility", 7);
  }

  /** The first quick question, about eligibility, is answered with the eligibility document. */
  lemma EligibilityQuestionScenario()
    ensures Answer(EligibilityQuestion) == KnowledgeBase[0].content
  {
    EligibilityQuestionFacts();
    EligibilityTitleFacts();
    AnswerIsDocumentOfCategory(EligibilityQuestion, 0, Eligibility);
  }

  /** Where "courses" stands in the second quick question, which has no letter "i". */
  lemma CoursesQuestionWords()
    ensures OccursAt(ToLower(CoursesQuestion), "courses", 5) && OccursAt(ToLower(CoursesQuestion), "course", 5)
    ensures ToLower(CoursesQuestion)[4] == ' ' && ToLower(CoursesQuestion)[12] == ' '
    ensures 'i' !in ToLower(CoursesQuestion)
  {
    OccursLowered(CoursesQuestion, "courses", 5);
    OccursLowered(CoursesQuestion, "course", 5);
    LoweredLacksChar(CoursesQuestion, 'i');
  }

  /** The second quick question holds the keyword "courses" and selects the courses group. */
  lemma CoursesQuestionFacts()
    ensures "courses" in Keywords(CoursesQuestion)
    ensures FirstFiring(Rules, ToLower(CoursesQuestion)) == Some(Courses)
  {
    var q := ToLower(CoursesQuestion);
    CoursesQuestionWords();
    FieldAt(q, "courses", 5, ' ');
    OccursThenContains(q, "course", 5);
    SelectsCourses(q);
  }

  /** The courses document's title holds "courses" once lower-cased. */
  lemma CoursesTitleFacts()
    ensures KeywordHits("courses", KnowledgeBase[1])
  {
    OccursLowered(Title2, "courses", 10);
    OccursThenContains(ToLower(Title2), "courses", 10);
  }

  /** The second quick question, about courses, is answered with the courses document. */
  lemma CoursesQuestionScenario()
    ensures Answer(CoursesQuestion) == KnowledgeBase[1].content
  {
    CoursesQuestionFacts();
    CoursesTitleFacts();
    AnswerIsDocumentOfCategory(CoursesQuestion, 1, Courses);
  }

  /** Where "fees" stands in the question about hostel fees, which has no letter "i" or "r". */
  lemma HostelFeesWords()
    ensures OccursAt(ToLower(HostelFeesQuestion), "fees", 21) && OccursAt(ToLower(HostelFeesQuestion), "fee", 21)
    ensures ToLower(HostelFeesQuestion)[20] == ' ' && |ToLower(HostelFeesQuestion)| == 25
    ensures 'i' !in ToLower(HostelFeesQuestion) && 'r' !in ToLower(HostelFeesQuestion)
  {
    OccursLowered(HostelFeesQuestion, "fees", 21);
    OccursLowered(HostelFeesQuestion, "fee", 21);
    LoweredLacksChar(HostelFeesQuestion, 'i');
    LoweredLacksChar(HostelFeesQuestion, 'r');
  }

  /** A question about hostel fees holds the keyword "fees" and selects the fees group. */
  lemma HostelFeesFacts()
    ensures "fees" in Keywords(HostelFeesQuestion)
    ensures FirstFiring(Rules, ToLower(HostelFeesQuestion)) == Some(Fees)
  {
    var q := ToLower(HostelFeesQuestion);
    HostelFeesWords();
    FieldAt(q, "fees", 21, ' ');
    OccursThenContains(q, "fee", 21);
    SelectsFees(q);
  }

  /** The fees document's text holds "fees" once lower-cased. */
  lemma FeesContentFacts()
    ensures KeywordHits("fees", KnowledgeBase[2])
  {
    OccursLowered(Content3, "fees", 14);
    OccursThenContains(ToLower(Content3), "fees", 14);
  }

  /** A question about hostel fees is answered with the fee structure. */
  lemma HostelFeesScenario()
    ensures Answer(HostelFeesQuestion) == KnowledgeBase[2].content
  {
    HostelFeesFacts();
    FeesContentFacts();
    AnswerIsDocumentOfCategory(HostelFeesQuestion, 2, Fees);
  }

  /** Where "the" and "program" stand in the third quick question. */
  lemma FeesQuestionWords()
    ensures OccursAt(ToLower(FeesQuestion), "the", 9) && OccursAt(ToLower(FeesQuestion), "program", 32)
    ensures ToLower(FeesQuestion)[8] == ' ' && ToLower(FeesQuestion)[12] == ' '
  {
    OccursLowered(FeesQuestion, "the", 9);
    OccursLowered(FeesQuestion, "program", 32);
  }

  /**
   Letters the third quick question lacks: "y" and "c" here, "q" in
   `FeesQuestionLacksQ`. Each absence is checked against every character of
   the question, so the letters are split over two lemmas to keep each
   proof small.
   */
  lemma FeesQuestionLetters()
    ensures 'y' !in ToLower(FeesQuestion) && 'c' !in ToLower(FeesQuestion)
  {
    LoweredLacksChar(FeesQuestion, 'y');
    LoweredLacksChar(FeesQuestion, 'c');
  }

  /** The third quick question has no letter "q"; see `FeesQuestionLetters`. */
  lemma FeesQuestionLacksQ()
    ensures 'q' !in ToLower(FeesQuestion)
  {
    LoweredLacksChar(FeesQuestion, 'q');
  }

  /**
   The third quick question, about fees, holds the keyword "the" and selects
   the COURSES group: "programs" holds "program", and the courses group is
   tried before the fees group.
   */
  lemma FeesQuestionFacts()
    ensures "the" in Keywords(FeesQuestion)
    ensures FirstFiring(Rules, ToLower(FeesQuestion)) == Some(Courses)
  {
    var q := ToLower(FeesQuestion);
    FeesQuestionWords();
    FeesQuestionLetters();
    FeesQuestionLacksQ();
    FieldAt(q, "the", 9, ' ');
    OccursThenContains(q, "program", 32);
    SelectsCoursesByProgram(q);
  }

  /** The eligibility document's text holds "the" once lower-cased, inside "Mathematics". */
  lemma EligibilityContentHoldsThe()
    ensures KeywordHits("the", KnowledgeBase[0])
  {
    OccursLowered(Content1, "the", 95);
    OccursThenContains(ToLower(Content1), "the", 95);
  }

  /** The fee structure's text differs from the eligibility and the courses texts. */
  lemma FeesTextDiffers()
    ensures KnowledgeBase[2].content != KnowledgeBase[0].content && KnowledgeBase[2].content != KnowledgeBase[1].content
  {
    assert |KnowledgeBase[2].content| < |KnowledgeBase[0].content| < |KnowledgeBase[1].content|;
  }

  /**
   The third quick question, about fees, is never answered with the fee
   structure: first match wins, so the courses group is selected, and the
   reply is the courses text or the eligibility text.
   */
  lemma FeesQuestionScenario()
    ensures Answer(FeesQuestion) == KnowledgeBase[0].content || Answer(FeesQuestion) == KnowledgeBase[1].content
    ensures Answer(FeesQuestion) != KnowledgeBase[2].content
  {
    FeesQuestionFacts();
    EligibilityContentHoldsThe();
    CoursesGroupAnswer(FeesQuestion);
    FeesTextDiffers();
  }

  /** The fifth quick question, lower-cased. */
  lemma ContactQuestionLowered()
    ensures ToLower(ContactQuestion) == "how can i contact the admission office?"
  {
  }

  /**
   The lower-cased fifth quick question has no "fe", "os" or "nc". The
   lowered text is passed in as `q`, pinned to its literal value, so that
   the verifier checks the pairs against a plain literal instead of
   re-deriving every lowered character of `ToLower(ContactQuestion)`.
   `ContactQuestionPairs` states the same fact about `ToLower(ContactQuestion)`.
   */
  lemma ContactLowerPairs(q: string)
    requires q == "how can i contact the admission office?"
    ensures !HasPair(q, 'f', 'e') && !HasPair(q, 'o', 's') && !HasPair(q, 'n', 'c')
  {
  }

  /** Where "contact" stands in the fifth quick question. */
  lemma ContactQuestionContact()
    ensures OccursAt(ToLower(ContactQuestion), "contact", 10)
  {
    OccursLowered(ContactQuestion, "contact", 10);
  }

  /** Where the one-letter word "i" stands in the fifth quick question. */
  lemma ContactQuestionI()
    ensures OccursAt(ToLower(ContactQuestion), "i", 8)
    ensures ToLower(ContactQuestion)[7] == ' ' && ToLower(ContactQuestion)[9] == ' '
  {
    OccursLowered(ContactQuestion, "i", 8);
  }

  /** Letters the fifth quick question lacks. */
  lemma ContactQuestionLetters()
    ensures 'g' !in ToLower(ContactQuestion) && 'r' !in ToLower(ContactQuestion) && 'l' !in ToLower(ContactQuestion)
  {
    LoweredLacksChar(ContactQuestion, 'g');
    LoweredLacksChar(ContactQuestion, 'r');
    LoweredLacksChar(ContactQuestion, 'l');
  }

  /** Letter pairs the fifth quick question lacks. */
  lemma ContactQuestionPairs()
    ensures !HasPair(ToLower(ContactQuestion), 'f', 'e') && !HasPair(ToLower(ContactQuestion), 'o', 's')
    ensures !HasPair(ToLower(ContactQuestion), 'n', 'c')
  {
    ContactQuestionLowered();
    ContactLowerPairs(ToLower(ContactQuestion));
  }

  /**
   The fifth quick question holds the one-letter keyword "i" and selects the
   contact group: no keyword of the first four groups occurs in it.
   */
  lemma ContactQuestionFacts()
    ensures "i" in Keywords(ContactQuestion)
    ensures FirstFiring(Rules, ToLower(ContactQuestion)) == Some(Contact)
  {
    var q := ToLower(ContactQuestion);
    ContactQuestionContact();
    ContactQuestionI();
    ContactQuestionLetters();
    ContactQuestionPairs();
    FieldAt(q, "i", 8, ' ');
    OccursThenContains(q, "contact", 10);
    SelectsContact(q);
  }

  /** The eligibility document's title holds the letter "i". */
  lemma EligibilityHoldsI()
    ensures KeywordHits("i", KnowledgeBase[0])
  {
    OccursLowered(Title1, "i", 9);
    OccursThenContains(ToLower(Title1), "i", 9);
  }

  /** The courses document's title holds the letter "i". */
  lemma CoursesHoldsI()
    ensures KeywordHits("i", KnowledgeBase[1])
  {
    OccursLowered(Title2, "i", 3);
    OccursThenContains(ToLower(Title2), "i", 3);
  }

  /** The fee structure's text holds the letter "i", in "admission". */
  lemma FeesHoldsI()
    ensures KeywordHits("i", KnowledgeBase[2])
  {
    OccursLowered(Content3, "i", 163);
    OccursThenContains(ToLower(Content3), "i", 163);
  }

  /** No scholarships or contact document is among the first three of the store. */
  lemma FirstThreeNotOf(category: Category)
    requires category == Scholarships || category == Contact
    ensures forall j :: 0 <= j < MaxResults ==> KnowledgeBase[j].category != category
  {
    KnowledgeBaseCategories();
  }

  /** Any query with the keyword "i" finds each of the first three documents relevant. */
  lemma FirstThreeRelevantToI(query: string)
    requires "i" in Keywords(query)
    ensures forall j :: 0 <= j < MaxResults ==> Relevant(Keywords(query), KnowledgeBase[j])
  {
    EligibilityHoldsI();
    CoursesHoldsI();
    FeesHoldsI();
  }

  /**
   Any query with the keyword "i" whose selected group is scholarships or
   contact is answered with the ELIGIBILITY text: the letter "i" makes the
   first three documents relevant, so the documents of the selected group
   are cut off by the limit of three, and the answer falls back to the first
   document found.
   */
  lemma KeywordIHidesLaterDocuments(query: string)
    requires "i" in Keywords(query)
    requires FirstFiring(Rules, ToLower(query)) == Some(Scholarships) || FirstFiring(Rules, ToLower(query)) == Some(Contact)
    ensures SearchRelevantDocuments(query, KnowledgeBase) == KnowledgeBase[..MaxResults]
    ensures Answer(query) == KnowledgeBase[0].content
  {
    var category := FirstFiring(Rules, ToLower(query)).value;
    FirstThreeRelevantToI(query);
    FirstThreeNotOf(category);
    AnswerWhenCategoryCutOff(query, KnowledgeBase, category);
  }

  /** So the fifth quick question, about contacting the office, is answered with the eligibility text. */
  lemma ContactQuestionScenario()
    ensures SearchRelevantDocuments(ContactQuestion, KnowledgeBase) == KnowledgeBase[..3]
    ensures Answer(ContactQuestion) == KnowledgeBase[0].content
  {
    ContactQuestionFacts();
    KeywordIHidesLaterDocuments(ContactQuestion);
  }
}
