/**
 * The problem editor of one section in the mock-test form: editing one field
 * of one problem, adding and deleting problems, and changing the subject.
 */
module SectionCard {
  import opened Wrappers
  import opened Lists
  import opened MockTestForm

  /** A field of a problem together with its new value. */
  datatype ProblemEdit =
    | EditId(id: Option<string>)
    | EditNumber(number: int)
    | EditTitle(title: Option<string>)
    | EditContext(context: Option<string>)
    | EditImage(imageUrl: Option<string>)
    | EditOrder(orderIndex: int)
    | EditQuestions(questions: seq<QuestionForm>)

  predicate Carries(p: ProblemForm, e: ProblemEdit) {
    match e
    case EditId(v) => p.id == v
    case EditNumber(v) => p.number == v
    case EditTitle(v) => p.title == v
    case EditContext(v) => p.context == v
    case EditImage(v) => p.imageUrl == v
    case EditOrder(v) => p.orderIndex == v
    case EditQuestions(v) => p.questions == v
  }

  predicate AgreeOutside(a: ProblemForm, b: ProblemForm, e: ProblemEdit) {
    && (e.EditId? || a.id == b.id)
    && (e.EditNumber? || a.number == b.number)
    && (e.EditTitle? || a.title == b.title)
    && (e.EditContext? || a.context == b.context)
    && (e.EditImage? || a.imageUrl == b.imageUrl)
    && (e.EditOrder? || a.orderIndex == b.orderIndex)
    && (e.EditQuestions? || a.questions == b.questions)
  }

  function Apply(p: ProblemForm, e: ProblemEdit): (r: ProblemForm)
    ensures Carries(r, e) && AgreeOutside(p, r, e)
  {
    match e
    case EditId(v) => p.(id := v)
    case EditNumber(v) => p.(number := v)
    case EditTitle(v) => p.(title := v)
    case EditContext(v) => p.(context := v)
    case EditImage(v) => p.(imageUrl := v)
    case EditOrder(v) => p.(orderIndex := v)
    case EditQuestions(v) => p.(questions := v)
  }

  /** `handleProblemUpdate`: only the named field of problem `i` changes,
      so an edit of anything but the index or the number keeps a numbered
      list numbered. */
  function UpdateProblem(ps: seq<ProblemForm>, i: nat, e: ProblemEdit): (r: seq<ProblemForm>)
    requires i < |ps|
    ensures |r| == |ps|
    ensures Carries(r[i], e) && AgreeOutside(ps[i], r[i], e)
    ensures forall j | 0 <= j < |ps| && j != i :: r[j] == ps[j]
    ensures Numbered(ps) && !e.EditNumber? && !e.EditOrder? ==> Numbered(r)
  {
    UpdateAt(ps, i, (p: ProblemForm) => Apply(p, e))
  }

  /** Problems indexed from 0 and numbered from 1 in list order. */
  predicate Numbered(ps: seq<ProblemForm>) {
    forall k | 0 <= k < |ps| :: ps[k].orderIndex == k && ps[k].number == k + 1
  }

  /** `handleAddProblem`: a default problem with index `n` and number `n + 1`. */
  function AddProblem(ps: seq<ProblemForm>): (r: seq<ProblemForm>)
    ensures |r| == |ps| + 1 && r[..|ps|] == ps
    ensures r[|ps|].orderIndex == |ps| && r[|ps|].number == |ps| + 1
    ensures |r[|ps|].questions| == 1 && r[|ps|].questions[0].number == "a"
    ensures Numbered(ps) ==> Numbered(r)
  {
    ps + [DefaultProblem(|ps|, |ps| + 1)]
  }

  /** Two problems that differ at most in their index and number. */
  predicate SameContent(a: ProblemForm, b: ProblemForm) {
    a.id == b.id && a.title == b.title && a.context == b.context && a.imageUrl == b.imageUrl
      && a.questions == b.questions
  }

  function Renumber(ps: seq<ProblemForm>): (r: seq<ProblemForm>)
    ensures |r| == |ps| && Numbered(r)
    ensures forall k | 0 <= k < |ps| :: SameContent(ps[k], r[k])
  {
    seq(|ps|, k requires 0 <= k < |ps| => ps[k].(orderIndex := k, number := k + 1))
  }

  /** `handleDeleteProblem`: problem `i` removed, the rest renumbered. */
  function DeleteProblem(ps: seq<ProblemForm>, i: int): (r: seq<ProblemForm>)
    ensures Numbered(r)
    ensures 0 <= i < |ps| ==> |r| == |ps| - 1
    ensures 0 <= i < |ps| ==> forall k | 0 <= k < |r| ::
      SameContent(ps[if k < i then k else k + 1], r[k])
  {
    Renumber(Without(ps, i))
  }

  lemma DeleteAdded(ps: seq<ProblemForm>)
    requires Numbered(ps)
    ensures DeleteProblem(AddProblem(ps), |ps|) == ps
  {
    WithoutLast(ps, DefaultProblem(|ps|, |ps| + 1));
  }

  /** A problem can be deleted only while more than one exists. */
  predicate CanDelete(ps: seq<ProblemForm>) {
    |ps| > 1
  }

  /** `handleSubjectChange`: the subject is set and the title reset to the
      subject's own name, or to "" for a subject the table does not know. */
  function ChangeSubject(s: SectionForm, subject: string): (r: SectionForm)
    ensures r.subject == subject && r.problems == s.problems
    ensures r.id == s.id && r.orderIndex == s.orderIndex
    ensures subject in {"math", "physics", "chemistry", "english"} <==> r.title != []
  {
    s.(subject := subject, title := SubjectTitle(subject).GetOr(""))
  }

  /** A known subject gives the title a default section of that subject has. */
  lemma ChangeSubjectDefault(s: SectionForm, subject: string)
    requires SubjectTitle(subject).Some?
    ensures ChangeSubject(s, subject).title == DefaultSection(s.orderIndex, subject).title
  {
  }
}
