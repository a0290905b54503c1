/**
 The knowledge store: a fixed, ordered list of documents, each tagged with
 exactly one category from a closed set.
 */
module Knowledge {

  /** The six document categories; the set is closed. */
  datatype Category = Eligibility | Courses | Fees | Scholarships | Contact | General

  /** One entry of the store. */
  datatype Document = Document(id: string, title: string, content: string, category: Category)

  /** The titles and texts of the five documents, each text written sentence by sentence. */
  const Title1: string := "B.Tech Eligibility Criteria"
  const Content1: string :=
    "For B.Tech admission, candidates must have completed 12th grade with Physics, Chemistry, and Mathematics. " +
    "Minimum 75% marks required in 12th grade. " +
    "Valid JEE Main score is mandatory. " +
    "Age limit is 25 years for general category."

  const Title2: string := "Available Courses"
  const Content2: string :=
    "We offer B.Tech in Computer Science, Electronics, Mechanical, Civil, Chemical Engineering. " +
    "M.Tech programs available in all branches. " +
    "MBA, MCA, and PhD programs also offered. " +
    "Duration: B.Tech (4 years), M.Tech (2 years), MBA (2 years)."

  const Title3: string := "Fee Structure"
  const Content3: string :=
    "B.Tech annual fees: \U{20B9}1,50,000. " +
    "M.Tech annual fees: \U{20B9}80,000. " +
    "MBA annual fees: \U{20B9}2,00,000. " +
    "Hostel fees: \U{20B9}50,000 per year. " +
    "Mess fees: \U{20B9}40,000 per year. " +
    "One-time admission fee: \U{20B9}10,000."

  const Title4: string := "Scholarship Programs"
  const Content4: string :=
    "Merit scholarships for top 10% students. " +
    "Need-based financial aid available. " +
    "Sports scholarships for state/national level players. " +
    "SC/ST/OBC fee concessions as per government norms. " +
    "Girl student scholarships available."

  const Title5: string := "Contact Information"
  const Content5: string :=
    "Admission Office: +91-9876543210. " +
    "Email: admissions@college.edu. " +
    "Address: College Road, Education City, State - 123456. " +
    "Office Hours: 9 AM to 5 PM, Monday to Saturday. " +
    "Online portal: www.college.edu/admissions"

  /** The five documents, in store order. */
  const KnowledgeBase: seq<Document> := [
    Document("1", Title1, Content1, Eligibility),
    Document("2", Title2, Content2, Courses),
    Document("3", Title3, Content3, Fees),
    Document("4", Title4, Content4, Scholarships),
    Document("5", Title5, Content5, Contact)
  ]

  /**
   The store is well formed: ids are pairwise distinct, no content is empty,
   and no two documents share a category, so each of the five non-general
   categories names exactly one document.
   */
  lemma KnowledgeBaseWellFormed()
    ensures |KnowledgeBase| == 5
    ensures forall i, j :: 0 <= i < j < |KnowledgeBase| ==> KnowledgeBase[i].id != KnowledgeBase[j].id
    ensures forall i, j :: 0 <= i < j < |KnowledgeBase| ==> KnowledgeBase[i].category != KnowledgeBase[j].category
    ensures forall d :: d in KnowledgeBase ==> d.content != [] && d.category != General
  {
  }

  /** The category of each document, in store order. */
  lemma KnowledgeBaseCategories()
    ensures |KnowledgeBase| == 5
    ensures KnowledgeBase[0].category == Eligibility && KnowledgeBase[1].category == Courses
    ensures KnowledgeBase[2].category == Fees && KnowledgeBase[3].category == Scholarships
    ensures KnowledgeBase[4].category == Contact
  {
  }
}
