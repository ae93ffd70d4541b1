/**
 * The option editor of one question in the mock-test form: editing one
 * field of one option, choosing the correct option, adding and deleting
 * options, and the index the radio group shows as selected.
 */
module QuestionCard {
  import opened Wrappers
  import opened Lists
  import opened MockTestForm

  /** A field of an option together with its new value. */
  datatype OptionEdit =
    | EditId(id: Option<string>)
    | EditText(text: string)
    | EditCorrect(isCorrect: bool)
    | EditImage(imageUrl: Option<string>)
    | EditOrder(orderIndex: int)

  /** The option carries the edited value in the named field. */
  predicate Carries(o: OptionForm, e: OptionEdit) {
    match e
    case EditId(v) => o.id == v
    case EditText(v) => o.text == v
    case EditCorrect(v) => o.isCorrect == v
    case EditImage(v) => o.imageUrl == v
    case EditOrder(v) => o.orderIndex == v
  }

  /** The two options agree on every field the edit does not name. */
  predicate AgreeOutside(a: OptionForm, b: OptionForm, e: OptionEdit) {
    && (e.EditId? || a.id == b.id)
    && (e.EditText? || a.text == b.text)
    && (e.EditCorrect? || a.isCorrect == b.isCorrect)
    && (e.EditImage? || a.imageUrl == b.imageUrl)
    && (e.EditOrder? || a.orderIndex == b.orderIndex)
  }

  function Apply(o: OptionForm, e: OptionEdit): (r: OptionForm)
    ensures Carries(r, e) && AgreeOutside(o, r, e)
  {
    match e
    case EditId(v) => o.(id := v)
    case EditText(v) => o.(text := v)
    case EditCorrect(v) => o.(isCorrect := v)
    case EditImage(v) => o.(imageUrl := v)
    case EditOrder(v) => o.(orderIndex := v)
  }

  /** An option is determined by an edit it carries and the fields outside it. */
  lemma ApplyUnique(o: OptionForm, e: OptionEdit, r: OptionForm)
    requires Carries(r, e) && AgreeOutside(o, r, e)
    ensures r == Apply(o, e)
  {
  }

  /** `handleOptionUpdate`: only the named field of option `i` changes; the
      rows call it with their own index. An edit of any field but the
      correct flag leaves the number of correct options as it was. */
  function UpdateOption(opts: seq<OptionForm>, i: nat, e: OptionEdit): (r: seq<OptionForm>)
    requires i < |opts|
    ensures |r| == |opts|
    ensures Carries(r[i], e) && AgreeOutside(opts[i], r[i], e)
    ensures forall j | 0 <= j < |opts| && j != i :: r[j] == opts[j]
    ensures !e.EditCorrect? ==> CountCorrect(r) == CountCorrect(opts)
  {
    var r := UpdateAt(opts, i, (o: OptionForm) => Apply(o, e));
    if e.EditCorrect? then r
    else
      SameCount(opts, r);
      r
  }

  /** `handleSetCorrect`: option `i` becomes the correct one, all others
      incorrect, and nothing else changes. */
  function SetCorrect(opts: seq<OptionForm>, i: int): (r: seq<OptionForm>)
    ensures |r| == |opts|
    ensures forall j | 0 <= j < |opts| :: r[j].isCorrect == (j == i)
    ensures forall j | 0 <= j < |opts| :: AgreeOutside(opts[j], r[j], EditCorrect(false))
  {
    seq(|opts|, j requires 0 <= j < |opts| => opts[j].(isCorrect := j == i))
  }

  /** With `i` in range exactly one option is correct and the radio group
      selects `i`; out of range, no option is. */
  lemma SetCorrectCount(opts: seq<OptionForm>, i: int)
    ensures 0 <= i < |opts| ==>
      CountCorrect(SetCorrect(opts, i)) == 1 && CorrectIndex(SetCorrect(opts, i)) == i
    ensures !(0 <= i < |opts|) ==>
      CountCorrect(SetCorrect(opts, i)) == 0 && CorrectIndex(SetCorrect(opts, i)) == -1
  {
    var r := SetCorrect(opts, i);
    if 0 <= i < |opts| {
      CountOne(r, i, IsCorrect);
    } else {
      CountZero(r, IsCorrect);
    }
  }

  lemma SetCorrectTwice(opts: seq<OptionForm>, i: int)
    ensures SetCorrect(SetCorrect(opts, i), i) == SetCorrect(opts, i)
  {
  }

  /** `handleAddOption`: one default option appended, numbered by the old length. */
  function AddOption(opts: seq<OptionForm>): (r: seq<OptionForm>)
    ensures |r| == |opts| + 1 && r[..|opts|] == opts
    ensures var o := r[|opts|];
      o.text == [] && !o.isCorrect && o.imageUrl.None? && o.id.None? && o.orderIndex == |opts|
  {
    opts + [DefaultOption(|opts|)]
  }

  lemma AddOptionCount(opts: seq<OptionForm>)
    ensures CountCorrect(AddOption(opts)) == CountCorrect(opts)
  {
    CountAppend(opts, [DefaultOption(|opts|)], IsCorrect);
    CountSingle(DefaultOption(|opts|), IsCorrect);
  }

  /** The options numbered `0, 1, 2, ...` in list order. */
  function Renumber(opts: seq<OptionForm>): (r: seq<OptionForm>)
    ensures |r| == |opts|
    ensures forall k | 0 <= k < |r| :: r[k].orderIndex == k
    ensures forall k | 0 <= k < |r| :: AgreeOutside(opts[k], r[k], EditOrder(0))
  {
    seq(|opts|, k requires 0 <= k < |opts| => opts[k].(orderIndex := k))
  }

  predicate Numbered(opts: seq<OptionForm>) {
    forall k | 0 <= k < |opts| :: opts[k].orderIndex == k
  }

  /** `handleDeleteOption`: option `i` is removed and the rest renumbered. */
  function DeleteOption(opts: seq<OptionForm>, i: int): (r: seq<OptionForm>)
    ensures Numbered(r)
    ensures 0 <= i < |opts| ==> |r| == |opts| - 1
    ensures 0 <= i < |opts| ==> forall k | 0 <= k < |r| ::
      AgreeOutside(opts[if k < i then k else k + 1], r[k], EditOrder(0))
    ensures !(0 <= i < |opts|) ==> r == Renumber(opts)
  {
    Renumber(Without(opts, i))
  }

  /** Deleting the option just added restores a numbered list. */
  lemma DeleteAdded(opts: seq<OptionForm>)
    requires Numbered(opts)
    ensures DeleteOption(AddOption(opts), |opts|) == opts
  {
    WithoutLast(opts, DefaultOption(|opts|));
  }

  /** Deleting an option removes its vote: the count of correct options
      drops by one exactly when the deleted option was the correct one. */
  lemma DeleteOptionCount(opts: seq<OptionForm>, i: int)
    requires 0 <= i < |opts|
    ensures CountCorrect(DeleteOption(opts, i))
      == CountCorrect(opts) - (if opts[i].isCorrect then 1 else 0)
  {
    CountWithout(opts, i, IsCorrect);
    RenumberCount(Without(opts, i));
  }

  lemma {:induction false} RenumberCount(opts: seq<OptionForm>)
    ensures CountCorrect(Renumber(opts)) == CountCorrect(opts)
  {
    SameCount(opts, Renumber(opts));
  }

  /** Lists with the same correctness flags position by position have the same count. */
  lemma {:induction false} SameCount(a: seq<OptionForm>, b: seq<OptionForm>)
    requires |a| == |b| && forall k | 0 <= k < |a| :: a[k].isCorrect == b[k].isCorrect
    ensures Count(a, IsCorrect) == Count(b, IsCorrect)
  {
    if a != [] {
      SameCount(a[..|a| - 1], b[..|b| - 1]);
    }
  }

  /** The delete button is offered only while more than two options exist. */
  predicate CanDelete(opts: seq<OptionForm>) {
    |opts| > 2
  }

  /** Deleting only when offered keeps the two options the validator asks for. */
  lemma DeleteKeepsTwo(opts: seq<OptionForm>, i: int)
    requires CanDelete(opts)
    ensures |DeleteOption(opts, i)| >= 2
  {
  }

  /** `findIndex((opt) => opt.is_correct)`: the first correct option, or -1. */
  function CorrectIndex(opts: seq<OptionForm>): (r: int)
    ensures -1 <= r < |opts|
    ensures r >= 0 ==> opts[r].isCorrect && forall j | 0 <= j < r :: !opts[j].isCorrect
    ensures r == -1 <==> forall j | 0 <= j < |opts| :: !opts[j].isCorrect
  {
    FindCorrect(opts, 0)
  }

  function FindCorrect(opts: seq<OptionForm>, from: nat): (r: int)
    requires from <= |opts|
    ensures -1 <= r < |opts| && (r >= 0 ==> from <= r)
    ensures r >= 0 ==> opts[r].isCorrect && forall j | from <= j < r :: !opts[j].isCorrect
    ensures r == -1 <==> forall j | from <= j < |opts| :: !opts[j].isCorrect
    decreases |opts| - from
  {
    if from == |opts| then -1
    else if opts[from].isCorrect then from
    else FindCorrect(opts, from + 1)
  }
}
