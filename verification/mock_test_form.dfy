/**
 * The admin form for a mock test: its nested form records, the records the
 * database returns, the default builders, the conversion from database rows
 * to form data, the question count and the validator that runs before a
 * save. Optional fields of the source (`T | null`, `T?`) are `Option<T>`.
 */
module MockTestForm {
  import opened Wrappers
  import opened Text
  import opened Lists

  // -----------------------------------------------------------------------
  // Form records
  // -----------------------------------------------------------------------

  datatype OptionForm = OptionForm(
    id: Option<string>,
    text: string,
    isCorrect: bool,
    imageUrl: Option<string>,
    orderIndex: int)

  datatype QuestionForm = QuestionForm(
    id: Option<string>,
    number: string,
    text: string,
    imageUrl: Option<string>,
    explanation: string,
    points: int,
    orderIndex: int,
    options: seq<OptionForm>)

  datatype ProblemForm = ProblemForm(
    id: Option<string>,
    number: int,
    title: Option<string>,
    context: Option<string>,
    imageUrl: Option<string>,
    orderIndex: int,
    questions: seq<QuestionForm>)

  datatype SectionForm = SectionForm(
    id: Option<string>,
    subject: string,
    title: string,
    orderIndex: int,
    problems: seq<ProblemForm>)

  datatype TestForm = TestForm(
    id: Option<string>,
    title: string,
    description: Option<string>,
    timeLimitMinutes: int,
    totalQuestions: int,
    passingScorePercentage: int,
    isPublished: bool,
    sections: seq<SectionForm>)

  // -----------------------------------------------------------------------
  // Database rows, with the fields the conversion treats as possibly missing
  // -----------------------------------------------------------------------

  datatype DbOption = DbOption(
    id: string, text: string, isCorrect: Option<bool>, imageUrl: Option<string>, orderIndex: int)

  datatype DbQuestion = DbQuestion(
    id: string, number: string, text: string, imageUrl: Option<string>, explanation: string,
    points: int, orderIndex: int, options: Option<seq<DbOption>>)

  datatype DbProblem = DbProblem(
    id: string, number: int, title: Option<string>, context: Option<string>,
    imageUrl: Option<string>, orderIndex: int, questions: Option<seq<DbQuestion>>)

  datatype DbSection = DbSection(
    id: string, subject: string, title: string, orderIndex: int, problems: Option<seq<DbProblem>>)

  datatype DbTest = DbTest(
    id: string, title: string, description: Option<string>, timeLimitMinutes: int,
    totalQuestions: int, isPublished: Option<bool>, sections: Option<seq<DbSection>>)

  // -----------------------------------------------------------------------
  // Default builders
  // -----------------------------------------------------------------------

  /** The display title of each of the four subjects; any other key has none. */
  function SubjectTitle(subject: string): (r: Option<string>)
    ensures r.Some? <==> subject in {"math", "physics", "chemistry", "english"}
    ensures r.Some? ==> r.value != []
  {
    if subject == "math" then Some("Математик")
    else if subject == "physics" then Some("Физик")
    else if subject == "chemistry" then Some("Хими")
    else if subject == "english" then Some("Англи хэл")
    else None
  }

  function DefaultOption(orderIndex: int): OptionForm {
    OptionForm(None, "", false, None, orderIndex)
  }

  /** Four empty, incorrect options numbered 0 to 3. */
  function DefaultOptions(): (r: seq<OptionForm>)
    ensures |r| == 4
    ensures forall k | 0 <= k < 4 :: r[k] == DefaultOption(k)
  {
    [DefaultOption(0), DefaultOption(1), DefaultOption(2), DefaultOption(3)]
  }

  function DefaultQuestion(orderIndex: int, number: string): QuestionForm {
    QuestionForm(None, number, "", None, "", 10, orderIndex, DefaultOptions())
  }

  function DefaultProblem(orderIndex: int, number: int): ProblemForm {
    ProblemForm(None, number, None, None, None, orderIndex, [DefaultQuestion(0, "a")])
  }

  /** The form types restrict the subject to the four known ones. */
  function DefaultSection(orderIndex: int, subject: string): SectionForm
    requires SubjectTitle(subject).Some?
  {
    SectionForm(None, subject, SubjectTitle(subject).value, orderIndex, [DefaultProblem(0, 1)])
  }

  function DefaultTest(): TestForm {
    TestForm(None, "", None, 180, 0, 60, false, [DefaultSection(0, "math")])
  }

  /** A default question has four empty incorrect options indexed 0..3 and
      is worth 10 points; it is not yet savable, since its text is blank and
      no option is correct. */
  lemma DefaultQuestionShape(orderIndex: int, number: string)
    ensures var q := DefaultQuestion(orderIndex, number);
      && q.points == 10 && q.orderIndex == orderIndex && q.number == number
      && |q.options| == 4
      && (forall k | 0 <= k < 4 ::
            q.options[k].orderIndex == k && !q.options[k].isCorrect && q.options[k].text == [])
      && CountCorrect(q.options) == 0
      && !QuestionOk(q)
  {
    var q := DefaultQuestion(orderIndex, number);
    CountZero(q.options, IsCorrect);
    assert IsBlank(q.text);
  }

  /** The default test is one math section holding one problem holding the
      single question "a", with a three-hour limit; the validator rejects it
      at its first check, the blank title. */
  lemma DefaultTestShape()
    ensures var t := DefaultTest();
      && t.timeLimitMinutes == 180 && t.passingScorePercentage == 60 && !t.isPublished
      && |t.sections| == 1 && t.sections[0].subject == "math"
      && t.sections[0].title == "Математик"
      && |t.sections[0].problems| == 1 && t.sections[0].problems[0].number == 1
      && |t.sections[0].problems[0].questions| == 1
      && t.sections[0].problems[0].questions[0].number == "a"
      && TotalQuestions(t) == 1
      && FirstFailure(t) == Some(TitleRequired)
  {
    var t := DefaultTest();
    assert IsBlank(t.title);
    assert TotalQuestions(t) == |AllQuestions(t.sections)| by {
      TotalIsCount(t.sections, 0);
    }
    assert AllQuestions(t.sections) == t.sections[0].problems[0].questions;
  }

  // -----------------------------------------------------------------------
  // Database rows to form data
  // -----------------------------------------------------------------------

  function OptionFromDb(o: DbOption): OptionForm {
    OptionForm(Some(o.id), o.text, o.isCorrect.GetOr(false), o.imageUrl, o.orderIndex)
  }

  /** A missing or empty option list becomes the four default options;
      otherwise each option is carried over in order. */
  function OptionsFromDb(opts: Option<seq<DbOption>>): (r: seq<OptionForm>)
    ensures |r| >= 1
    ensures opts.GetOr([]) == [] ==> r == DefaultOptions()
    ensures opts.GetOr([]) != [] ==>
      (|r| == |opts.value| && forall k | 0 <= k < |r| :: r[k] == OptionFromDb(opts.value[k]))
  {
    var os := opts.GetOr([]);
    if |os| > 0 then seq(|os|, k requires 0 <= k < |os| => OptionFromDb(os[k]))
    else DefaultOptions()
  }

  function QuestionFromDb(q: DbQuestion): QuestionForm {
    QuestionForm(Some(q.id), q.number, q.text, q.imageUrl, q.explanation, q.points,
      q.orderIndex, OptionsFromDb(q.options))
  }

  function ProblemFromDb(p: DbProblem): ProblemForm {
    var qs := p.questions.GetOr([]);
    ProblemForm(Some(p.id), p.number, p.title, p.context, p.imageUrl, p.orderIndex,
      seq(|qs|, k requires 0 <= k < |qs| => QuestionFromDb(qs[k])))
  }

  function SectionFromDb(s: DbSection): SectionForm {
    var ps := s.problems.GetOr([]);
    SectionForm(Some(s.id), s.subject, s.title, s.orderIndex,
      seq(|ps|, k requires 0 <= k < |ps| => ProblemFromDb(ps[k])))
  }

  /** The form loaded for editing: the pass mark is always 60, a missing
      publication flag reads as unpublished, and missing child lists read as
      empty. */
  function FromDb(t: DbTest): (r: TestForm)
    ensures r.passingScorePercentage == 60
    ensures r.isPublished == (t.isPublished == Some(true))
    ensures |r.sections| == |t.sections.GetOr([])|
    ensures forall k | 0 <= k < |r.sections| ::
      |r.sections[k].problems| == |t.sections.value[k].problems.GetOr([])|
  {
    var ss := t.sections.GetOr([]);
    TestForm(Some(t.id), t.title, t.description, t.timeLimitMinutes, t.totalQuestions, 60,
      t.isPublished.GetOr(false), seq(|ss|, k requires 0 <= k < |ss| => SectionFromDb(ss[k])))
  }

  // The way back, used to state that the conversion loses nothing on a
  // stored test whose every field is present.

  function OptionToDb(o: OptionForm): DbOption
    requires o.id.Some?
  {
    DbOption(o.id.value, o.text, Some(o.isCorrect), o.imageUrl, o.orderIndex)
  }

  function QuestionToDb(q: QuestionForm): DbQuestion
    requires q.id.Some? && forall k | 0 <= k < |q.options| :: q.options[k].id.Some?
  {
    DbQuestion(q.id.value, q.number, q.text, q.imageUrl, q.explanation, q.points, q.orderIndex,
      Some(seq(|q.options|, k requires 0 <= k < |q.options| => OptionToDb(q.options[k]))))
  }

  predicate QuestionStored(q: QuestionForm) {
    q.id.Some? && |q.options| > 0 && forall k | 0 <= k < |q.options| :: q.options[k].id.Some?
  }

  predicate ProblemStored(p: ProblemForm) {
    p.id.Some? && forall k | 0 <= k < |p.questions| :: QuestionStored(p.questions[k])
  }

  predicate SectionStored(s: SectionForm) {
    s.id.Some? && forall k | 0 <= k < |s.problems| :: ProblemStored(s.problems[k])
  }

  /** A form that came from a stored test: every record has an id, every
      question at least one option, and the pass mark is the fixed 60. */
  predicate Stored(f: TestForm) {
    && f.id.Some? && f.passingScorePercentage == 60
    && forall k | 0 <= k < |f.sections| :: SectionStored(f.sections[k])
  }

  function ProblemToDb(p: ProblemForm): DbProblem
    requires ProblemStored(p)
  {
    DbProblem(p.id.value, p.number, p.title, p.context, p.imageUrl, p.orderIndex,
      Some(seq(|p.questions|, k requires 0 <= k < |p.questions| => QuestionToDb(p.questions[k]))))
  }

  function SectionToDb(s: SectionForm): DbSection
    requires SectionStored(s)
  {
    DbSection(s.id.value, s.subject, s.title, s.orderIndex,
      Some(seq(|s.problems|, k requires 0 <= k < |s.problems| => ProblemToDb(s.problems[k]))))
  }

  function ToDb(f: TestForm): DbTest
    requires Stored(f)
  {
    DbTest(f.id.value, f.title, f.description, f.timeLimitMinutes, f.totalQuestions,
      Some(f.isPublished),
      Some(seq(|f.sections|, k requires 0 <= k < |f.sections| => SectionToDb(f.sections[k]))))
  }

  lemma QuestionRoundTrip(q: QuestionForm)
    requires QuestionStored(q)
    ensures QuestionFromDb(QuestionToDb(q)) == q
  {
    var r := QuestionFromDb(QuestionToDb(q));
    assert r.options == q.options;
  }

  lemma ProblemRoundTrip(p: ProblemForm)
    requires ProblemStored(p)
    ensures ProblemFromDb(ProblemToDb(p)) == p
  {
    var r := ProblemFromDb(ProblemToDb(p));
    forall k | 0 <= k < |p.questions|
      ensures r.questions[k] == p.questions[k]
    {
      QuestionRoundTrip(p.questions[k]);
    }
  }

  lemma SectionRoundTrip(s: SectionForm)
    requires SectionStored(s)
    ensures SectionFromDb(SectionToDb(s)) == s
  {
    var r := SectionFromDb(SectionToDb(s));
    forall k | 0 <= k < |s.problems|
      ensures r.problems[k] == s.problems[k]
    {
      ProblemRoundTrip(s.problems[k]);
    }
  }

  /** Loading a stored test for editing gives back exactly its form data. */
  lemma FromDbToDb(f: TestForm)
    requires Stored(f)
    ensures FromDb(ToDb(f)) == f
  {
    var r := FromDb(ToDb(f));
    forall k | 0 <= k < |f.sections|
      ensures r.sections[k] == f.sections[k]
    {
      SectionRoundTrip(f.sections[k]);
    }
  }

  // -----------------------------------------------------------------------
  // Question count
  // -----------------------------------------------------------------------

  /** The inner reduce: questions of the problems, added left to right. */
  function ProblemsTotal(acc: int, ps: seq<ProblemForm>): int
    decreases |ps|
  {
    if ps == [] then acc else ProblemsTotal(acc + |ps[0].questions|, ps[1..])
  }

  /** The outer reduce over the sections. */
  function SectionsTotal(acc: int, ss: seq<SectionForm>): int
    decreases |ss|
  {
    if ss == [] then acc else SectionsTotal(acc + ProblemsTotal(0, ss[0].problems), ss[1..])
  }

  function TotalQuestions(f: TestForm): int {
    SectionsTotal(0, f.sections)
  }

  /** Every question of the test, section by section and problem by problem. */
  function ProblemQuestions(ps: seq<ProblemForm>): seq<QuestionForm> {
    if ps == [] then [] else ps[0].questions + ProblemQuestions(ps[1..])
  }

  function AllQuestions(ss: seq<SectionForm>): seq<QuestionForm> {
    if ss == [] then [] else ProblemQuestions(ss[0].problems) + AllQuestions(ss[1..])
  }

  lemma {:induction false} ProblemsTotalIsCount(ps: seq<ProblemForm>, acc: int)
    ensures ProblemsTotal(acc, ps) == acc + |ProblemQuestions(ps)|
    decreases |ps|
  {
    if ps != [] {
      ProblemsTotalIsCount(ps[1..], acc + |ps[0].questions|);
    }
  }

  /** The count is the number of questions in the whole test. */
  lemma {:induction false} TotalIsCount(ss: seq<SectionForm>, acc: int)
    ensures SectionsTotal(acc, ss) == acc + |AllQuestions(ss)|
    decreases |ss|
  {
    if ss != [] {
      ProblemsTotalIsCount(ss[0].problems, 0);
      TotalIsCount(ss[1..], acc + ProblemsTotal(0, ss[0].problems));
    }
  }

  /** A test the validator accepts has at least one question per section. */
  lemma {:induction false} ValidTotal(f: TestForm)
    requires WellFormed(f)
    ensures TotalQuestions(f) >= |f.sections| >= 1
  {
    TotalIsCount(f.sections, 0);
    AtLeastOnePerSection(f.sections);
  }

  lemma {:induction false} AtLeastOnePerSection(ss: seq<SectionForm>)
    requires forall k | 0 <= k < |ss| :: SectionOk(ss[k])
    ensures |AllQuestions(ss)| >= |ss|
    decreases |ss|
  {
    if ss != [] {
      assert ProblemOk(ss[0].problems[0]);
      assert |ProblemQuestions(ss[0].problems)| >= 1;
      AtLeastOnePerSection(ss[1..]);
    }
  }

  // -----------------------------------------------------------------------
  // Validation
  // -----------------------------------------------------------------------

  predicate IsCorrect(o: OptionForm) {
    o.isCorrect
  }

  /** `options.filter((o) => o.is_correct).length`. */
  function CountCorrect(opts: seq<OptionForm>): nat {
    Count(opts, IsCorrect)
  }

  /** An option needs text or an image: `!text.trim() && !image_url` fails. */
  predicate OptionOk(o: OptionForm) {
    !IsBlank(o.text) || (o.imageUrl.Some? && o.imageUrl.value != [])
  }

  predicate QuestionOk(q: QuestionForm) {
    && !IsBlank(q.text) && !IsBlank(q.explanation)
    && |q.options| >= 2 && CountCorrect(q.options) == 1
    && forall k | 0 <= k < |q.options| :: OptionOk(q.options[k])
  }

  predicate ProblemOk(p: ProblemForm) {
    |p.questions| > 0 && forall k | 0 <= k < |p.questions| :: QuestionOk(p.questions[k])
  }

  predicate SectionOk(s: SectionForm) {
    && !IsBlank(s.title) && |s.problems| > 0
    && forall k | 0 <= k < |s.problems| :: ProblemOk(s.problems[k])
  }

  /** What a savable test is, independently of the order of the checks. */
  predicate WellFormed(f: TestForm) {
    && !IsBlank(f.title) && |f.sections| > 0
    && forall k | 0 <= k < |f.sections| :: SectionOk(f.sections[k])
  }

  /** The reasons the validator gives; sections and problems are numbered
      from 1 as in its messages, questions by their letter. */
  datatype Failure =
    | TitleRequired
    | NoSections
    | SectionTitleRequired(section: nat)
    | NoProblems(section: nat)
    | NoQuestions(section: nat, problem: nat)
    | TextRequired(section: nat, problem: nat, question: string)
    | ExplanationRequired(section: nat, problem: nat, question: string)
    | TooFewOptions(section: nat, problem: nat, question: string, count: nat)
    | WrongCorrectCount(section: nat, problem: nat, question: string, count: nat)
    | EmptyOption(section: nat, problem: nat, question: string)
  {
    predicate TopLevel() {
      this.TitleRequired? || this.NoSections?
    }
  }

  /** The first `Some` of `check` over the list, in list order. */
  function Scan<T>(xs: seq<T>, check: (nat, T) -> Option<Failure>): (r: Option<Failure>)
    ensures r.None? <==> forall i | 0 <= i < |xs| :: check(i, xs[i]).None?
    ensures r.Some? ==> exists k | 0 <= k < |xs| ::
      r == check(k, xs[k]) && forall i | 0 <= i < k :: check(i, xs[i]).None?
  {
    ScanFrom(xs, check, 0)
  }

  /** Where the failure a scan reports was found. */
  lemma ScanWitness<T>(xs: seq<T>, check: (nat, T) -> Option<Failure>, e: Failure) returns (k: nat)
    requires Scan(xs, check) == Some(e)
    ensures k < |xs| && check(k, xs[k]) == Some(e)
    ensures forall i | 0 <= i < k :: check(i, xs[i]).None?
  {
    k :| 0 <= k < |xs| && Some(e) == check(k, xs[k]) && forall i | 0 <= i < k :: check(i, xs[i]).None?;
  }

  function ScanFrom<T>(xs: seq<T>, check: (nat, T) -> Option<Failure>, from: nat): (r: Option<Failure>)
    requires from <= |xs|
    ensures r.None? <==> forall i | from <= i < |xs| :: check(i, xs[i]).None?
    ensures r.Some? ==> exists k | from <= k < |xs| ::
      r == check(k, xs[k]) && forall i | from <= i < k :: check(i, xs[i]).None?
    decreases |xs| - from
  {
    if from == |xs| then None
    else if check(from, xs[from]).Some? then check(from, xs[from])
    else ScanFrom(xs, check, from + 1)
  }

  function OptionCheck(s: nat, p: nat, q: QuestionForm): (nat, OptionForm) -> Option<Failure> {
    (k: nat, o: OptionForm) => if OptionOk(o) then None else Some(EmptyOption(s, p, q.number))
  }

  function QuestionCheck(s: nat, p: nat): (nat, QuestionForm) -> Option<Failure> {
    (k: nat, q: QuestionForm) =>
      if IsBlank(q.text) then Some(TextRequired(s, p, q.number))
      else if IsBlank(q.explanation) then Some(ExplanationRequired(s, p, q.number))
      else if |q.options| < 2 then Some(TooFewOptions(s, p, q.number, |q.options|))
      else if CountCorrect(q.options) != 1 then
        Some(WrongCorrectCount(s, p, q.number, CountCorrect(q.options)))
      else Scan(q.options, OptionCheck(s, p, q))
  }

  function ProblemCheck(s: nat): (nat, ProblemForm) -> Option<Failure> {
    (k: nat, p: ProblemForm) =>
      if |p.questions| == 0 then Some(NoQuestions(s, k + 1))
      else Scan(p.questions, QuestionCheck(s, k + 1))
  }

  function SectionCheck(k: nat, sec: SectionForm): Option<Failure> {
    if IsBlank(sec.title) then Some(SectionTitleRequired(k + 1))
    else if |sec.problems| == 0 then Some(NoProblems(k + 1))
    else Scan(sec.problems, ProblemCheck(k + 1))
  }

  /** The first check that fails, in the order the validator runs them. */
  function FirstFailure(f: TestForm): Option<Failure> {
    if IsBlank(f.title) then Some(TitleRequired)
    else if |f.sections| == 0 then Some(NoSections)
    else Scan(f.sections, SectionCheck)
  }

  lemma QuestionCheckOk(s: nat, p: nat, k: nat, q: QuestionForm)
    ensures QuestionCheck(s, p)(k, q).None? <==> QuestionOk(q)
  {
  }

  lemma ProblemCheckOk(s: nat, k: nat, p: ProblemForm)
    ensures ProblemCheck(s)(k, p).None? <==> ProblemOk(p)
  {
    forall j | 0 <= j < |p.questions|
      ensures QuestionCheck(s, k + 1)(j, p.questions[j]).None? <==> QuestionOk(p.questions[j])
    {
      QuestionCheckOk(s, k + 1, j, p.questions[j]);
    }
  }

  lemma SectionCheckOk(k: nat, sec: SectionForm)
    ensures SectionCheck(k, sec).None? <==> SectionOk(sec)
  {
    forall j | 0 <= j < |sec.problems|
      ensures ProblemCheck(k + 1)(j, sec.problems[j]).None? <==> ProblemOk(sec.problems[j])
    {
      ProblemCheckOk(k + 1, j, sec.problems[j]);
    }
  }

  /** The validator passes exactly the well-formed tests. */
  lemma FirstFailureOk(f: TestForm)
    ensures FirstFailure(f).None? <==> WellFormed(f)
  {
    forall k | 0 <= k < |f.sections|
      ensures SectionCheck(k, f.sections[k]).None? <==> SectionOk(f.sections[k])
    {
      SectionCheckOk(k, f.sections[k]);
    }
  }

  /** A failure inside section `k` is reported only when every earlier
      section passes all its checks, and it is that section's own first
      failure. */
  lemma FailureIsFirst(f: TestForm, e: Failure)
    requires FirstFailure(f) == Some(e) && !e.TopLevel()
    ensures 1 <= e.section <= |f.sections|
    ensures SectionCheck(e.section - 1, f.sections[e.section - 1]) == Some(e)
    ensures forall j | 0 <= j < e.section - 1 :: SectionOk(f.sections[j])
  {
    assert !IsBlank(f.title) && |f.sections| > 0;
    var k := ScanWitness(f.sections, SectionCheck, e);
    SectionFailureNumbered(k, f.sections[k], e);
    forall j | 0 <= j < k
      ensures SectionOk(f.sections[j])
    {
      SectionCheckOk(j, f.sections[j]);
    }
  }

  /** Every failure found inside section `k` carries the number `k + 1`. */
  lemma SectionFailureNumbered(k: nat, sec: SectionForm, e: Failure)
    requires SectionCheck(k, sec) == Some(e)
    ensures !e.TopLevel() && e.section == k + 1
  {
    if !IsBlank(sec.title) && |sec.problems| > 0 {
      var j :| 0 <= j < |sec.problems| && Some(e) == ProblemCheck(k + 1)(j, sec.problems[j]);
      ProblemFailureNumbered(k + 1, j, sec.problems[j], e);
    }
  }

  lemma ProblemFailureNumbered(s: nat, k: nat, p: ProblemForm, e: Failure)
    requires ProblemCheck(s)(k, p) == Some(e)
    ensures !e.TopLevel() && e.section == s && e.problem == k + 1
  {
    if |p.questions| > 0 {
      var i :| 0 <= i < |p.questions| && Some(e) == QuestionCheck(s, k + 1)(i, p.questions[i]);
      QuestionFailureNumbered(s, k + 1, i, p.questions[i], e);
    }
  }

  lemma QuestionFailureNumbered(s: nat, p: nat, k: nat, q: QuestionForm, e: Failure)
    requires QuestionCheck(s, p)(k, q) == Some(e)
    ensures !e.TopLevel() && !e.SectionTitleRequired? && !e.NoProblems?
    ensures e.section == s && e.problem == p && e.question == q.number
  {
    if QuestionOkSoFar(q) {
      var i :| 0 <= i < |q.options| && Some(e) == OptionCheck(s, p, q)(i, q.options[i]);
    }
  }

  /** The question-level checks before the per-option one pass. */
  predicate QuestionOkSoFar(q: QuestionForm) {
    !IsBlank(q.text) && !IsBlank(q.explanation) && |q.options| >= 2 && CountCorrect(q.options) == 1
  }

  /** The validator's answer. */
  datatype Validation = Validation(valid: bool, message: string, path: Option<string>)

  function Located(s: nat, p: nat): string {
    "Section " + NatToString(s) + ", Problem " + NatToString(p)
  }

  function QuestionPath(s: nat, p: nat, q: string): string {
    Located(s, p) + ", Question " + q
  }

  /** Where a failure lies, as the validator's `path`; top-level failures have none. */
  function PathOf(e: Failure): (r: Option<string>)
    ensures r.None? <==> e.TopLevel()
  {
    match e
    case TitleRequired => None
    case NoSections => None
    case SectionTitleRequired(s) => Some("Section " + NatToString(s))
    case NoProblems(s) => Some("Section " + NatToString(s))
    case NoQuestions(s, p) => Some(Located(s, p))
    case TextRequired(s, p, q) => Some(QuestionPath(s, p, q))
    case ExplanationRequired(s, p, q) => Some(QuestionPath(s, p, q))
    case TooFewOptions(s, p, q, _) => Some(QuestionPath(s, p, q))
    case WrongCorrectCount(s, p, q, _) => Some(QuestionPath(s, p, q))
    case EmptyOption(s, p, q) => Some(QuestionPath(s, p, q))
  }

  /** The validator's message: a test-level text, or the location followed
      by what is wrong there. */
  function MessageOf(e: Failure): string {
    match e
    case TitleRequired => "Test title is required"
    case NoSections => "At least one section is required"
    case _ => PathOf(e).value + Complaint(e)
  }

  function Complaint(e: Failure): (r: string)
    requires !e.TopLevel()
    ensures r != []
  {
    match e
    case SectionTitleRequired(_) => " title is required"
    case NoProblems(_) => " needs at least one problem"
    case NoQuestions(_, _) => " needs at least one question"
    case TextRequired(_, _, _) => " text is required"
    case ExplanationRequired(_, _, _) => " explanation is required"
    case TooFewOptions(_, _, _, n) =>
      " needs at least 2 options (currently has " + NatToString(n) + ")"
    case WrongCorrectCount(_, _, _, n) =>
      " needs exactly one correct answer (currently has " + NatToString(n) + ")"
    case EmptyOption(_, _, _) => ": All options must have text or an image"
  }

  /** `validateFormData`: valid exactly for well-formed tests; a blank title
      is reported before anything else is looked at, and every failure below
      the test level names where it lies. */
  function Validate(f: TestForm): (r: Validation)
    ensures r.valid <==> WellFormed(f)
    ensures IsBlank(f.title) ==> r == Validation(false, "Test title is required", None)
    ensures !IsBlank(f.title) && f.sections == [] ==>
      r == Validation(false, "At least one section is required", None)
    ensures !r.valid ==> (r.path.Some? <==> !IsBlank(f.title) && f.sections != [])
    ensures r.valid ==> r.path.None?
  {
    FirstFailureOk(f);
    FailureLevel(f);
    match FirstFailure(f)
    case None => Validation(true, "Validation passed", None)
    case Some(e) => Validation(false, MessageOf(e), PathOf(e))
  }

  /** A failure is a test-level one exactly when the title is blank or the
      section list empty. */
  lemma FailureLevel(f: TestForm)
    ensures FirstFailure(f).Some? ==>
      (FirstFailure(f).value.TopLevel() <==> IsBlank(f.title) || f.sections == [])
  {
    if FirstFailure(f).Some? && !IsBlank(f.title) && f.sections != [] {
      var e := FirstFailure(f).value;
      var k :| 0 <= k < |f.sections| && Some(e) == SectionCheck(k, f.sections[k]);
      SectionFailureNumbered(k, f.sections[k], e);
    }
  }

  /** Every message below the test level starts with the location it reports. */
  lemma PathStartsMessage(e: Failure)
    requires !e.TopLevel()
    ensures var p := PathOf(e).value;
      |p| < |MessageOf(e)| && MessageOf(e)[..|p|] == p
  {
    var p := PathOf(e).value;
    assert MessageOf(e) == p + Complaint(e);
    assert (p + Complaint(e))[..|p|] == p;
  }
}
