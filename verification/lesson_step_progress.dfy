/**
 * The step checkmarks of a lesson (`getStepCompletionStatus`): the theory
 * step, the example step and the test step, and the pass mark of a unit
 * quiz (`getUnitQuizCompletionStatus`). The reads are inputs; a read that
 * returns null stands for an empty list, as the code has it.
 */
module LessonStepProgress {
  import opened Wrappers
  import Lists

  datatype ContentItem = ContentItem(id: string, contentType: string)

  /** A row of `lesson_content_progress`, as far as the steps read it. */
  datatype ProgressRow = ProgressRow(contentId: string, isCompleted: bool)

  datatype Attempt = Attempt(score: nat, totalQuestions: nat)

  datatype StepStatus = StepStatus(theory: bool, example: bool, test: bool)

  const NoSteps := StepStatus(false, false, false)

  // ---------------------------------------------------------------------
  // The content steps
  // ---------------------------------------------------------------------

  /** `new Map(progressList.map(...))`: a later row for the same item
      overwrites an earlier one. */
  function ProgressMap(rows: seq<ProgressRow>): map<string, bool> {
    if rows == [] then map[]
    else
      var row := rows[|rows| - 1];
      ProgressMap(rows[..|rows| - 1])[row.contentId := row.isCompleted]
  }

  /** `progressMap.get(id) === true`. */
  predicate MarkedDone(m: map<string, bool>, id: string) {
    id in m && m[id]
  }

  /** The last progress row for the item says it is completed. */
  predicate LastRowCompleted(rows: seq<ProgressRow>, id: string) {
    exists k | 0 <= k < |rows| :: rows[k].contentId == id && rows[k].isCompleted
                                  && forall j | k < j < |rows| :: rows[j].contentId != id
  }

  /** The map marks an item done exactly when its last row is completed;
      an item without a row is not done. */
  lemma {:induction false} ProgressMapLastWins(rows: seq<ProgressRow>, id: string)
    ensures MarkedDone(ProgressMap(rows), id) <==> LastRowCompleted(rows, id)
  {
    if rows != [] {
      var init, last := rows[..|rows| - 1], rows[|rows| - 1];
      ProgressMapLastWins(init, id);
      if last.contentId == id {
        if LastRowCompleted(rows, id) {
          var k :| 0 <= k < |rows| && rows[k].contentId == id && rows[k].isCompleted
                   && forall j | k < j < |rows| :: rows[j].contentId != id;
          assert k == |rows| - 1;
        }
        if last.isCompleted {
          assert rows[|rows| - 1].contentId == id && rows[|rows| - 1].isCompleted;
        }
      } else {
        if LastRowCompleted(init, id) {
          var k :| 0 <= k < |init| && init[k].contentId == id && init[k].isCompleted
                   && forall j | k < j < |init| :: init[j].contentId != id;
          assert rows[k] == init[k];
          forall j | k < j < |rows|
            ensures rows[j].contentId != id
          {
            if j < |init| {
              assert rows[j] == init[j];
            }
          }
        }
        if LastRowCompleted(rows, id) {
          var k :| 0 <= k < |rows| && rows[k].contentId == id && rows[k].isCompleted
                   && forall j | k < j < |rows| :: rows[j].contentId != id;
          assert init[k] == rows[k];
          forall j | k < j < |init|
            ensures init[j].contentId != id
          {
            assert init[j] == rows[j];
          }
        }
      }
    }
  }

  function OfType(contentType: string): ContentItem -> bool {
    (item: ContentItem) => item.contentType == contentType
  }

  /** A content step: no item of its type, or every one marked done. */
  predicate StepDone(items: seq<ContentItem>, contentType: string, m: map<string, bool>) {
    var typed := Lists.Filter(items, OfType(contentType));
    |typed| == 0 || forall i | 0 <= i < |typed| :: MarkedDone(m, typed[i].id)
  }

  /** A content step in terms of the rows: every item of its type has a
      last progress row, and that row is completed. */
  lemma StepDoneIff(items: seq<ContentItem>, contentType: string, rows: seq<ProgressRow>)
    ensures StepDone(items, contentType, ProgressMap(rows)) <==>
      forall i | 0 <= i < |items| :: items[i].contentType == contentType ==> LastRowCompleted(rows, items[i].id)
  {
    var m := ProgressMap(rows);
    var typed := Lists.Filter(items, OfType(contentType));
    Lists.FilterIn(items, OfType(contentType));
    Lists.FilterHas(items, OfType(contentType));
    if StepDone(items, contentType, m) {
      forall i | 0 <= i < |items| && items[i].contentType == contentType
        ensures LastRowCompleted(rows, items[i].id)
      {
        assert OfType(contentType)(items[i]) && items[i] in items;
        assert items[i] in typed;
        var j :| 0 <= j < |typed| && typed[j] == items[i];
        ProgressMapLastWins(rows, items[i].id);
      }
    } else {
      var j :| 0 <= j < |typed| && !MarkedDone(m, typed[j].id);
      assert typed[j] in typed;
      var i :| 0 <= i < |items| && items[i] == typed[j];
      ProgressMapLastWins(rows, items[i].id);
    }
  }

  // ---------------------------------------------------------------------
  // The test step
  // ---------------------------------------------------------------------

  /** `score >= total_questions * 0.8`, in whole numbers. */
  predicate Passed(a: Attempt) {
    5 * a.score >= 4 * a.totalQuestions
  }

  /** What the database returns for `order("score", desc).limit(1)`: the
      first attempt with the highest score, or nothing. */
  function TopAttempt(attempts: seq<Attempt>): (r: Option<Attempt>)
    ensures r.Some? <==> attempts != []
    ensures r.Some? ==> r.value in attempts && forall i | 0 <= i < |attempts| :: attempts[i].score <= r.value.score
  {
    if attempts == [] then None
    else
      var rest := TopAttempt(attempts[1..]);
      assert forall i | 1 <= i < |attempts| :: attempts[i] == attempts[1..][i - 1];
      if rest.Some? && rest.value.score > attempts[0].score then rest else Some(attempts[0])
  }

  /** The query rows: the top attempt, or none; null on an error. */
  function BestRows(attempts: Option<seq<Attempt>>): Option<seq<Attempt>> {
    match attempts
    case None => None
    case Some(all) => Some(if all == [] then [] else [TopAttempt(all).value])
  }

  /** The test on the query rows: a first row that passes. */
  predicate BestPasses(rows: Option<seq<Attempt>>) {
    rows.Some? && |rows.value| > 0 && Passed(rows.value[0])
  }

  /** When every attempt answers the same number of questions, the test
      step is passed exactly when some attempt passed. */
  lemma BestPassesIff(attempts: seq<Attempt>, totalQuestions: nat)
    requires forall i | 0 <= i < |attempts| :: attempts[i].totalQuestions == totalQuestions
    ensures BestPasses(BestRows(Some(attempts))) <==> exists i | 0 <= i < |attempts| :: Passed(attempts[i])
  {
    if attempts != [] {
      var top := TopAttempt(attempts).value;
      var k :| 0 <= k < |attempts| && attempts[k] == top;
      if exists i | 0 <= i < |attempts| :: Passed(attempts[i]) {
        var i :| 0 <= i < |attempts| && Passed(attempts[i]);
        assert attempts[i].score <= top.score;
      }
    }
  }

  // ---------------------------------------------------------------------
  // The two actions
  // ---------------------------------------------------------------------

  /** The reads of `getStepCompletionStatus`: whether the learner is signed
      in and enrolled, whether a call throws, the lesson's content items,
      the learner's progress rows and quiz attempts on the lesson (each
      null on an error). */
  datatype StepEnv = StepEnv(signedIn: bool, enrolled: bool, throws: bool,
                             items: Option<seq<ContentItem>>, rows: Option<seq<ProgressRow>>,
                             attempts: Option<seq<Attempt>>)

  /** `getStepCompletionStatus`. */
  function StepCompletionStatus(env: StepEnv): (r: StepStatus)
    ensures !env.signedIn || !env.enrolled || env.throws ==> r == NoSteps
  {
    if !env.signedIn || !env.enrolled || env.throws then NoSteps
    else
      var items := env.items.GetOr([]);
      var m := ProgressMap(env.rows.GetOr([]));
      StepStatus(StepDone(items, "theory", m), StepDone(items, "example", m), BestPasses(BestRows(env.attempts)))
  }

  /** The three checkmarks of a learner who is signed in and enrolled: a
      content step is done when every item of its type has a completed last
      progress row (null reads count as empty lists), and the test step
      when the best attempt scores at least 80%. */
  lemma StepStatusMeaning(env: StepEnv)
    requires env.signedIn && env.enrolled && !env.throws
    ensures var r := StepCompletionStatus(env);
      var items := env.items.GetOr([]);
      var rows := env.rows.GetOr([]);
      && (r.theory <==> forall i | 0 <= i < |items| :: items[i].contentType == "theory" ==> LastRowCompleted(rows, items[i].id))
      && (r.example <==> forall i | 0 <= i < |items| :: items[i].contentType == "example" ==> LastRowCompleted(rows, items[i].id))
      && (r.test <==> env.attempts.Some? && env.attempts.value != [] && Passed(TopAttempt(env.attempts.value).value))
  {
    StepDoneIff(env.items.GetOr([]), "theory", env.rows.GetOr([]));
    StepDoneIff(env.items.GetOr([]), "example", env.rows.GetOr([]));
  }

  /** The reads of `getUnitQuizCompletionStatus`. */
  datatype UnitEnv = UnitEnv(signedIn: bool, enrolled: bool, throws: bool, attempts: Option<seq<Attempt>>)

  /** `getUnitQuizCompletionStatus`: the same 80% rule on the best attempt
      at the unit quiz. */
  function UnitQuizCompletionStatus(env: UnitEnv): bool {
    if !env.signedIn || !env.enrolled || env.throws then false
    else BestPasses(BestRows(env.attempts))
  }

  /** A unit quiz counts as passed exactly when the learner is signed in
      and enrolled, nothing throws, and the best attempt scores at least
      80%; the rule is the test step's. */
  lemma UnitQuizIff(env: UnitEnv)
    ensures UnitQuizCompletionStatus(env) <==>
      && env.signedIn && env.enrolled && !env.throws
      && env.attempts.Some? && env.attempts.value != [] && Passed(TopAttempt(env.attempts.value).value)
    ensures UnitQuizCompletionStatus(env)
        == StepCompletionStatus(StepEnv(env.signedIn, env.enrolled, env.throws, None, None, env.attempts)).test
  {
  }
}
