# College admission assistant: query-to-answer resolution

A Dafny model of the question-answering core of a college admission chat
assistant (`src/pages/Index.tsx`). The assistant holds a fixed, ordered
store of five documents. Each document has an id, a title, a text and one
category out of six. A user question is answered in two steps.

- **Retrieval** (`searchRelevantDocuments`): the question is lower-cased and
  split on single spaces into keywords. A document is relevant when some
  keyword is a substring of its lower-cased text or title. The relevant
  documents are kept in store order and cut to the first three.
- **Answer selection** (`generateResponse`): with nothing retrieved the reply
  is a fixed fallback sentence. Otherwise five keyword groups are tried in
  order against the whole lower-cased question, and the first group that
  matches wins. The reply is the text of the first retrieved document of
  that group's category. When no retrieved document has that category, or
  no group matches, the reply is the text of the first retrieved document.

Modules, one per file:

- `Strings`: ASCII lower-casing, substring containment, and `split` on one
  separator character, with its inverse `Join`.
- `Knowledge`: categories, documents and the five-document store.
- `Retrieval`: keywords, relevance, the stable filter and the cut to three.
- `Response`: the fallback, the five-branch answer selection, and the same
  selection restated as an ordered rule table.
- `Pipeline`: the whole resolution over the store and the blank-input guard.
- `Scenarios`: the keyword groups particular questions select, and the
  replies to the quick questions and to one typed question.

Keywords are not whitespace tokens. The code splits the lower-cased
question with `split(' ')`, which keeps an empty field wherever the
question is empty, starts or ends with a space, or has two spaces in a
row. In JavaScript `includes("")` is always true, so such an empty
keyword matches every document. A question that is empty, or that has a
leading, trailing or doubled space, therefore retrieves the first three
documents (`EmptyFieldQueryReturnsFirstThree`, `SpacedInputGetsFirstThree`).
Only an input that is all white space is turned away before retrieval.

The model also shows a consequence of substring matching on raw keywords.
The quick question "How can I contact the admission office?" contains the
one-letter keyword "i". That letter occurs in the first three documents, so
those three fill the limit of three and the contact document is never
retrieved. The contact group then falls back to the first retrieved
document, and the question is answered with the eligibility text
(`ContactQuestionScenario`). Likewise the quick question "What are the fees
for different programs?" is never answered with the fee structure: its
word "programs" holds "program", the courses group is tried before the
fees group, and the reply is the courses text or, when the courses
document is not retrieved, the eligibility text (`FeesQuestionScenario`).

## Model

| member | source | states |
|---|---|---|
| Strings.Lower | src/pages/Index.tsx:79 | a lowered character is never an upper-case ASCII letter; it is a letter exactly when the original is one of either case; it is the original character or that upper-case letter moved by the distance from 'A' to 'a' |
| Strings.ToLowerMovesOnlyUpper | src/pages/Index.tsx:79 | lower-casing keeps the length, leaves no upper-case ASCII letter, and changes a character only when it is an upper-case letter, which moves to its lower-case counterpart |
| Strings.ToLowerIdempotent | src/pages/Index.tsx:79 | a lower-cased string has no upper-case ASCII letter, and lower-casing it again changes nothing |
| Strings.ToLowerKeepsNonLetters | src/pages/Index.tsx:79-80 | lower-casing puts a non-letter (the space) exactly where it stood before, so splitting before or after lower-casing cuts at the same places |
| Strings.ContainsIffOccurs | src/pages/Index.tsx:87 | `includes` holds exactly when the keyword occurs at some position of the text |
| Strings.ContainsEmpty | src/pages/Index.tsx:86-87 | the empty keyword is contained in every text |
| Strings.ContainsNeedsChar | src/pages/Index.tsx:100-123 | a keyword with a character the text lacks is not contained in it |
| Strings.ContainsNeedsPair | src/pages/Index.tsx:100-123 | a keyword with two adjacent characters that are never adjacent in the text is not contained in it |
| Strings.Split | src/pages/Index.tsx:80 | splitting yields at least one field and no field holds the separator |
| Strings.JoinSplit | src/pages/Index.tsx:80 | joining the fields with the separator gives back the original text |
| Strings.SplitJoin | src/pages/Index.tsx:80 | splitting the join of separator-free fields gives back those fields |
| Strings.SplitAtSep | src/pages/Index.tsx:80 | splitting at a separator gives the fields of the left part followed by those of the right part |
| Strings.FieldAt | src/pages/Index.tsx:80 | a separator-free stretch bounded by separators or the ends of the text is one of the fields |
| Strings.SplitCount | src/pages/Index.tsx:80 | there is one field more than there are separators |
| Strings.EmptyFieldIff | src/pages/Index.tsx:80 | an empty field appears exactly when the text is empty, starts with the separator, or has a separator followed by another separator or the end |
| Knowledge.KnowledgeBaseWellFormed | src/pages/Index.tsx:23-54 | the store has five documents with distinct ids and distinct categories, non-empty texts, and none of the general category |
| Knowledge.KnowledgeBaseCategories | src/pages/Index.tsx:23-54 | the store documents are, in order, about eligibility, courses, fees, scholarships and contact |
| Retrieval.Keywords | src/pages/Index.tsx:79-80 | the keywords are at least one field, none holds a space, and joined with single spaces they give back the lower-cased question |
| Retrieval.KeywordHits | src/pages/Index.tsx:83-87 | a keyword hits a document exactly when it occurs at some position of the lower-cased text or of the lower-cased title |
| Retrieval.Relevant | src/pages/Index.tsx:86-88 | an empty keyword makes every document relevant |
| Retrieval.RelevantIffOccurs | src/pages/Index.tsx:82-88 | a document is relevant exactly when some keyword occurs at some position of its lower-cased text or title |
| Retrieval.FilterRelevant | src/pages/Index.tsx:82-88 | the filter keeps exactly the relevant documents of the store, and no more documents than the store has |
| Retrieval.RelevantPositions | src/pages/Index.tsx:82-88 | the positions of the relevant documents, strictly increasing, include a position exactly when the document there is relevant |
| Retrieval.FilterIsStable | src/pages/Index.tsx:82-88 | the filter result is the store read at the relevant positions in increasing order, so it is a subsequence in store order |
| Retrieval.SearchRelevantDocuments | src/pages/Index.tsx:78-90 | the result has at most three documents and is a prefix of the filtered store of length min(3, number relevant); each result document is in the store and relevant; the result is empty exactly when no document is relevant |
| Retrieval.SearchIsFirstRelevant | src/pages/Index.tsx:82-89 | the k-th result is the store document at the k-th relevant position, for the first min(3, n) relevant positions |
| Retrieval.SearchKeepsEarlyMatch | src/pages/Index.tsx:82-89 | a relevant document among the first three of the store is always in the result, at a position no later than its own |
| Retrieval.SearchKeepsRelevantFirst | src/pages/Index.tsx:82-89 | when the first store document is relevant, the result is non-empty and starts with it |
| Retrieval.SearchKeepsRelevantPrefix | src/pages/Index.tsx:82-89 | when the first n (at most three) documents are all relevant, the result starts with exactly those documents |
| Retrieval.FilterWithEmptyKeyword | src/pages/Index.tsx:86-88 | with an empty keyword the filter keeps the whole store |
| Retrieval.EmptyFieldQueryReturnsFirstThree | src/pages/Index.tsx:80-89 | an empty question, or one with a leading, trailing or doubled space, retrieves exactly the first min(3, size) documents of the store |
| Response.FindByCategory | src/pages/Index.tsx:101 | the search finds nothing exactly when no document has the category; otherwise it finds the first document of that category |
| Response.AnswerFor | src/pages/Index.tsx:101-102 | the answer for a category is the text of a document of that category, or, when no document has it, of some document |
| Response.GenerateResponse | src/pages/Index.tsx:93-126 | with no documents the reply is the fallback; with documents it is the text of one of them |
| Response.FirstFiring | src/pages/Index.tsx:100-123 | no category exactly when no group fires; otherwise the category of the first group that fires, with every earlier group silent |
| Response.GenerateResponseFollowsRules | src/pages/Index.tsx:100-125 | first match wins: the reply to a non-empty retrieval is fixed by the first group of the rule table that fires, or is the first document's text when none fires |
| Response.GenerateResponseForCategory | src/pages/Index.tsx:100-122 | when a group fires, the reply to a non-empty retrieval is the answer for that group's category |
| Response.FirstFiringOfRules | src/pages/Index.tsx:100-123 | the rule table, tried in order, is the cascade of the five keyword tests in the order the code writes them |
| Response.GroupsFire | src/pages/Index.tsx:100-120 | each group fires exactly when one of its keywords occurs in the lower-cased question |
| Response.AnswerForPicksFirstOfCategory | src/pages/Index.tsx:101-102 | the answer for a category is the text of the first document of that category, or of the first document when there is none |
| Response.FallbackNotInStore | src/pages/Index.tsx:94-96 | no store document has the fallback sentence as its text |
| Response.NeverFallbackWhenRetrieved | src/pages/Index.tsx:94-125 | for documents taken from the store, the reply is the fallback exactly when nothing was retrieved |
| Pipeline.Answer | src/pages/Index.tsx:145-146 | the reply is the fallback exactly when no store document is relevant, and otherwise is the text of a store document |
| Pipeline.Trim | src/pages/Index.tsx:129 | trimming leaves a text that starts and ends with a kept character, no longer than the input, and empty exactly when the input is all white space |
| Pipeline.TrimKeepsMiddle | src/pages/Index.tsx:129 | the input is the trimmed text with only white space in front of it and behind it |
| Pipeline.Blank | src/pages/Index.tsx:129 | an input is blank exactly when every character is white space |
| Pipeline.Reply | src/pages/Index.tsx:129-146 | a blank input gets no reply; any other input gets the fallback or the text of a store document |
| Pipeline.SpacedInputGetsFirstThree | src/pages/Index.tsx:78-90 | a non-blank input with a leading, trailing or doubled space retrieves the first three documents and is answered with one of their texts |
| Pipeline.AnswerFromUniqueCategory | src/pages/Index.tsx:89-122 | a relevant document among the first three, alone in the selected category, is the reply |
| Pipeline.AnswerIsDocumentOfCategory | src/pages/Index.tsx:89-122 | over the store, a relevant document among the first three whose category is selected is the reply |
| Pipeline.CategoryIsUnique | src/pages/Index.tsx:23-54 | each store document is the only one of its category |
| Pipeline.AnswerIsFirstOrOfCategory | src/pages/Index.tsx:89-125 | when the first store document is relevant and a group fires whose category has one document, the reply is that document's text or the first document's text |
| Pipeline.CoursesGroupAnswer | src/pages/Index.tsx:105-107 | over the store, when the eligibility document is relevant and the courses group fires, the reply is the eligibility or the courses text |
| Pipeline.AnswerWhenCategoryCutOff | src/pages/Index.tsx:89-125 | when the first three documents are relevant and none has the selected category, the retrieval is those three and the reply is the first one's text |
| Scenarios.SelectsCourses | src/pages/Index.tsx:100-107 | a question without the letter "i" that holds "course" selects the courses group |
| Scenarios.SelectsCoursesByProgram | src/pages/Index.tsx:100-107 | a question without "y", "c" and "q" that holds "program" selects the courses group |
| Scenarios.SelectsFees | src/pages/Index.tsx:100-112 | a question without the letters "i" and "r" that holds "fee" selects the fees group |
| Scenarios.SelectsContact | src/pages/Index.tsx:100-122 | a question without "g", "r", "l", "fe", "os" and "nc" that holds "contact" selects the contact group |
| Scenarios.EligibilityQuestionFacts | src/pages/Index.tsx:167 | the first quick question has the keyword "eligibility" and selects the eligibility group |
| Scenarios.EligibilityQuestionScenario | src/pages/Index.tsx:100-102 | the first quick question is answered with the eligibility document's text |
| Scenarios.CoursesQuestionFacts | src/pages/Index.tsx:168 | the second quick question has the keyword "courses" and selects the courses group |
| Scenarios.CoursesQuestionScenario | src/pages/Index.tsx:105-107 | the second quick question is answered with the courses document's text |
| Scenarios.HostelFeesFacts | src/pages/Index.tsx:110 | "tell me about hostel fees" has the keyword "fees" and selects the fees group |
| Scenarios.HostelFeesScenario | src/pages/Index.tsx:110-112 | "tell me about hostel fees" is answered with the fee structure's text |
| Scenarios.FeesQuestionFacts | src/pages/Index.tsx:169 | the third quick question has the keyword "the" and selects the courses group, not the fees group |
| Scenarios.FeesQuestionScenario | src/pages/Index.tsx:105-112 | the third quick question, about fees, is answered with the eligibility or the courses text and never with the fee structure |
| Scenarios.ContactQuestionFacts | src/pages/Index.tsx:100-120 | the fifth quick question has the keyword "i" and selects the contact group |
| Scenarios.FirstThreeRelevantToI | src/pages/Index.tsx:26-39 | any question with the keyword "i" finds each of the first three documents relevant |
| Scenarios.KeywordIHidesLaterDocuments | src/pages/Index.tsx:86-89 | a question with the keyword "i" that selects scholarships or contact retrieves the first three documents and is answered with the eligibility text |
| Scenarios.ContactQuestionScenario | src/pages/Index.tsx:171 | the fifth quick question retrieves the first three documents and is answered with the eligibility text, not the contact details |

## Left out

- Chat state, message list, scrolling, the typing delay timer, message ids and timestamps (`useState`, `useEffect`, `setTimeout`, `Date.now()`): view state, clocks and timers, with nothing to state about the answer.
- `handleKeyPress`, the quick-question buttons and all rendering: presentation only. The quick questions appear as string constants in the scenario lemmas.
- Strings.ToLower: lowers only the ASCII letters A–Z and leaves every other character unchanged, where JavaScript's `toLowerCase` applies full Unicode case mapping; every question in the scenarios and every store text is ASCII apart from the rupee sign, which has no case.
- Dafny strings are sequences of Unicode scalar values, while JavaScript strings are sequences of UTF-16 code units. For well-formed text this changes nothing here: `split(' ')` and `includes` give the same answers on both. A string holding a lone surrogate cannot be written as a Dafny string, so such input is not modelled.
- Pipeline.Reply: the trimmed-away characters are the JavaScript white-space and line-terminator set written out; the model does not follow the language's Unicode tables beyond that list.
- Questions that must NOT match a particular document (for example one that retrieves nothing): proving that a keyword is absent from a long document text is beyond what the verifier does in reasonable time, so the scenarios state only positive matches against documents and absences in the short questions.
- The scholarships quick question ("Are there any scholarships available?") has no scenario lemma, and the fees quick question's lemma does not say which of its two possible texts it gets: both need the absence of every one of their keywords from documents they do not retrieve, which is the kind of fact excluded just above.
