/**
 * The question editor of one problem in the mock-test form: editing one
 * field of one question, adding a question with the next letter, and
 * deleting a question with the remaining ones re-lettered.
 */
module ProblemCard {
  import opened Wrappers
  import opened Lists
  import opened MockTestForm

  /** Letters the source can produce as one UTF-16 code unit that is also a
      Unicode scalar value, i.e. below the surrogate block. */
  const LetterLimit: nat := 0xD800 - 97

  /** `questionLetters[n] || String.fromCharCode(97 + n)`: the table "a".."e"
      first, the character code after it; both give the letter `'a' + n`. */
  function QuestionLetter(n: nat): (r: string)
    requires n < LetterLimit
    ensures r == [(97 + n) as char]
  {
    if n < 5 then ["a", "b", "c", "d", "e"][n] else [(97 + n) as char]
  }

  /** Different positions get different letters. */
  lemma LettersDistinct(m: nat, n: nat)
    requires m < LetterLimit && n < LetterLimit && m != n
    ensures QuestionLetter(m) != QuestionLetter(n)
  {
    assert QuestionLetter(m)[0] != QuestionLetter(n)[0];
  }

  /** A field of a question together with its new value. */
  datatype QuestionEdit =
    | EditId(id: Option<string>)
    | EditNumber(number: string)
    | EditText(text: string)
    | EditImage(imageUrl: Option<string>)
    | EditExplanation(explanation: string)
    | EditPoints(points: int)
    | EditOrder(orderIndex: int)
    | EditOptions(options: seq<OptionForm>)

  predicate Carries(q: QuestionForm, e: QuestionEdit) {
    match e
    case EditId(v) => q.id == v
    case EditNumber(v) => q.number == v
    case EditText(v) => q.text == v
    case EditImage(v) => q.imageUrl == v
    case EditExplanation(v) => q.explanation == v
    case EditPoints(v) => q.points == v
    case EditOrder(v) => q.orderIndex == v
    case EditOptions(v) => q.options == v
  }

  predicate AgreeOutside(a: QuestionForm, b: QuestionForm, e: QuestionEdit) {
    && (e.EditId? || a.id == b.id)
    && (e.EditNumber? || a.number == b.number)
    && (e.EditText? || a.text == b.text)
    && (e.EditImage? || a.imageUrl == b.imageUrl)
    && (e.EditExplanation? || a.explanation == b.explanation)
    && (e.EditPoints? || a.points == b.points)
    && (e.EditOrder? || a.orderIndex == b.orderIndex)
    && (e.EditOptions? || a.options == b.options)
  }

  function Apply(q: QuestionForm, e: QuestionEdit): (r: QuestionForm)
    ensures Carries(r, e) && AgreeOutside(q, r, e)
  {
    match e
    case EditId(v) => q.(id := v)
    case EditNumber(v) => q.(number := v)
    case EditText(v) => q.(text := v)
    case EditImage(v) => q.(imageUrl := v)
    case EditExplanation(v) => q.(explanation := v)
    case EditPoints(v) => q.(points := v)
    case EditOrder(v) => q.(orderIndex := v)
    case EditOptions(v) => q.(options := v)
  }

  /** `handleQuestionUpdate`: only the named field of question `i` changes,
      so an edit of anything but the index or the letter keeps a lettered
      list lettered. */
  function UpdateQuestion(qs: seq<QuestionForm>, i: nat, e: QuestionEdit): (r: seq<QuestionForm>)
    requires i < |qs|
    ensures |r| == |qs|
    ensures Carries(r[i], e) && AgreeOutside(qs[i], r[i], e)
    ensures forall j | 0 <= j < |qs| && j != i :: r[j] == qs[j]
    ensures |qs| <= LetterLimit && Lettered(qs) && !e.EditNumber? && !e.EditOrder? ==> Lettered(r)
  {
    UpdateAt(qs, i, (q: QuestionForm) => Apply(q, e))
  }

  /** The questions numbered 0, 1, 2, ... and lettered a, b, c, ... in order. */
  predicate Lettered(qs: seq<QuestionForm>)
    requires |qs| <= LetterLimit
  {
    forall k | 0 <= k < |qs| :: qs[k].orderIndex == k && qs[k].number == QuestionLetter(k)
  }

  /** `handleAddQuestion`: a default question with the next index and letter. */
  function AddQuestion(qs: seq<QuestionForm>): (r: seq<QuestionForm>)
    requires |qs| < LetterLimit
    ensures |r| == |qs| + 1 && r[..|qs|] == qs
    ensures r[|qs|] == DefaultQuestion(|qs|, QuestionLetter(|qs|))
    ensures Lettered(qs) ==> Lettered(r)
  {
    qs + [DefaultQuestion(|qs|, QuestionLetter(|qs|))]
  }

  /** Two questions that differ at most in their index and letter. */
  predicate SameContent(a: QuestionForm, b: QuestionForm) {
    a.id == b.id && a.text == b.text && a.imageUrl == b.imageUrl && a.explanation == b.explanation
      && a.points == b.points && a.options == b.options
  }

  /** The questions re-indexed and re-lettered by position. */
  function Reletter(qs: seq<QuestionForm>): (r: seq<QuestionForm>)
    requires |qs| <= LetterLimit
    ensures |r| == |qs| && Lettered(r)
    ensures forall k | 0 <= k < |qs| :: SameContent(qs[k], r[k])
  {
    seq(|qs|, k requires 0 <= k < |qs| => qs[k].(orderIndex := k, number := QuestionLetter(k)))
  }

  /** `handleDeleteQuestion`: question `i` removed, the rest re-lettered. */
  function DeleteQuestion(qs: seq<QuestionForm>, i: int): (r: seq<QuestionForm>)
    requires |qs| <= LetterLimit
    ensures |r| <= |qs| && Lettered(r)
    ensures 0 <= i < |qs| ==> |r| == |qs| - 1
    ensures 0 <= i < |qs| ==> forall k | 0 <= k < |r| ::
      SameContent(qs[if k < i then k else k + 1], r[k])
  {
    Reletter(Without(qs, i))
  }

  /** Deleting the question just added gives back a lettered list. */
  lemma DeleteAdded(qs: seq<QuestionForm>)
    requires |qs| < LetterLimit && Lettered(qs)
    ensures DeleteQuestion(AddQuestion(qs), |qs|) == qs
  {
    WithoutLast(qs, DefaultQuestion(|qs|, QuestionLetter(|qs|)));
  }

  /** In a lettered list no two questions share a letter. */
  lemma LetteredDistinct(qs: seq<QuestionForm>, j: nat, k: nat)
    requires |qs| <= LetterLimit && Lettered(qs)
    requires j < k < |qs|
    ensures qs[j].number != qs[k].number
  {
    LettersDistinct(j, k);
  }

  /** A question can be deleted only while more than one exists, so a
      problem never loses its last question through the editor. */
  predicate CanDelete(qs: seq<QuestionForm>) {
    |qs| > 1
  }

  lemma DeleteKeepsOne(qs: seq<QuestionForm>, i: int)
    requires |qs| <= LetterLimit && CanDelete(qs)
    ensures |DeleteQuestion(qs, i)| >= 1
  {
  }
}
