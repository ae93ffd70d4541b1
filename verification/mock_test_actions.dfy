/**
 * The pure decisions inside the mock-test server actions: the XP awarded
 * for a finished attempt, the check that every question has a saved
 * answer, the saved-answer map, and the retired timer update. Database
 * calls are inputs (`Query`), and the current user is an `Option`.
 */
module MockTestActions {
  import opened Wrappers
  import Lists

  // ---------------------------------------------------------------------
  // XP for a finished attempt
  // ---------------------------------------------------------------------

  /** `percentage = (score / totalQuestions) * 100`, exactly, for a test
      with questions. */
  function Percentage(score: nat, totalQuestions: nat): real
    requires totalQuestions > 0
  {
    (score as real / totalQuestions as real) * 100.0
  }

  /** The mastery bonus: four tests in the order of the source, each one
      overwriting the bonus when its range holds. With no questions the
      percentage is `Infinity` or `NaN`, which every test refuses. */
  function MasteryBonus(score: nat, totalQuestions: nat): nat {
    if totalQuestions == 0 then 0
    else
      var p := Percentage(score, totalQuestions);
      var bonus := if 80.0 <= p && p < 90.0 then 200 else 0;
      var bonus := if 90.0 <= p && p < 95.0 then 400 else bonus;
      var bonus := if 95.0 <= p && p < 100.0 then 600 else bonus;
      if p == 100.0 then 1000 else bonus
  }

  /** `isFirstAttempt` is `(count || 0) === 0`: no completed attempt of the
      same test by the same user is on record. */
  function FirstAttemptBonus(completedCount: Option<nat>): nat {
    if completedCount.GetOr(0) == 0 then 500 else 0
  }

  /** What `awardMockTestXP` sees of the world: the signed-in user, the
      attempt's test id, the count of completed attempts, and whether any
      call in the `try` block throws. */
  datatype AwardWorld = AwardWorld(user: Option<string>, attemptTest: Option<string>,
                                   completedCount: Option<nat>, throws: bool)

  predicate Refused(w: AwardWorld) {
    w.throws || w.user.None? || w.attemptTest.None?
  }

  /** `awardMockTestXP`. */
  function AwardXP(w: AwardWorld, score: nat, totalQuestions: nat): (xp: nat)
    ensures Refused(w) ==> xp == 0
    ensures !Refused(w) ==> 20 * score <= xp <= 20 * score + 1500
  {
    if Refused(w) then 0
    else 20 * score + MasteryBonus(score, totalQuestions) + FirstAttemptBonus(w.completedCount)
  }

  /** `p/t ≥ c` in whole numbers. */
  lemma RatioAtLeast(a: nat, t: nat, c: nat, d: nat)
    requires t > 0 && d > 0
    ensures (a as real / t as real) * 100.0 >= (100 * c) as real / d as real <==> d * a >= c * t
  {
    var q := a as real / t as real;
    assert q * t as real == a as real;
    var k := (100 * c) as real / d as real;
    assert k * d as real == (100 * c) as real;
    if d * a >= c * t {
      assert (d * a) as real >= (c * t) as real;
      assert q * 100.0 * (d * t) as real >= k * (d * t) as real;
    } else {
      assert (d * a) as real < (c * t) as real;
      assert q * 100.0 * (d * t) as real < k * (d * t) as real;
    }
  }

  /** The bonus table in whole numbers: the perfect score earns 1000, 95%
      up to it 600, 90% up to 95% 400, 80% up to 90% 200, and anything
      below 80%, above 100% or without questions nothing. */
  lemma MasteryTiers(score: nat, totalQuestions: nat)
    ensures totalQuestions > 0 && score == totalQuestions <==> MasteryBonus(score, totalQuestions) == 1000
    ensures totalQuestions > 0 && 20 * score >= 19 * totalQuestions && score < totalQuestions
            <==> MasteryBonus(score, totalQuestions) == 600
    ensures totalQuestions > 0 && 10 * score >= 9 * totalQuestions && 20 * score < 19 * totalQuestions
            <==> MasteryBonus(score, totalQuestions) == 400
    ensures totalQuestions > 0 && 5 * score >= 4 * totalQuestions && 10 * score < 9 * totalQuestions
            <==> MasteryBonus(score, totalQuestions) == 200
    ensures totalQuestions == 0 || 5 * score < 4 * totalQuestions || score > totalQuestions
            <==> MasteryBonus(score, totalQuestions) == 0
  {
    if totalQuestions > 0 {
      var t := totalQuestions;
      var p := Percentage(score, t);
      RatioAtLeast(score, t, 4, 5);
      RatioAtLeast(score, t, 9, 10);
      RatioAtLeast(score, t, 19, 20);
      RatioAtLeast(score, t, 1, 1);
      RatioAtLeast(t, t, 1, 1);
      assert (100 * 4) as real / 5 as real == 80.0;
      assert (100 * 9) as real / 10 as real == 90.0;
      assert (100 * 19) as real / 20 as real == 95.0;
      assert (100 * 1) as real / 1 as real == 100.0;
      PercentageIsHundred(score, t);
    }
  }

  lemma PercentageIsHundred(score: nat, t: nat)
    requires t > 0
    ensures Percentage(score, t) == 100.0 <==> score == t
  {
    var q := score as real / t as real;
    assert q * t as real == score as real;
  }

  /** Within the test, one more correct answer never earns less bonus. */
  lemma MasteryMonotone(s1: nat, s2: nat, totalQuestions: nat)
    requires s1 <= s2 <= totalQuestions
    ensures MasteryBonus(s1, totalQuestions) <= MasteryBonus(s2, totalQuestions)
  {
    MasteryTiers(s1, totalQuestions);
    MasteryTiers(s2, totalQuestions);
  }

  /** More correct answers always earn strictly more XP. */
  lemma AwardIncreasing(w: AwardWorld, s1: nat, s2: nat, totalQuestions: nat)
    requires !Refused(w) && s1 < s2 <= totalQuestions
    ensures AwardXP(w, s1, totalQuestions) < AwardXP(w, s2, totalQuestions)
  {
    MasteryMonotone(s1, s2, totalQuestions);
  }

  /** The first completed attempt is worth exactly 500 more than a later
      one with the same score. */
  lemma FirstAttemptWorth(w: AwardWorld, k: nat, score: nat, totalQuestions: nat)
    requires !Refused(w) && k > 0
    ensures AwardXP(w.(completedCount := None), score, totalQuestions)
         == AwardXP(w.(completedCount := Some(0)), score, totalQuestions)
         == AwardXP(w.(completedCount := Some(k)), score, totalQuestions) + 500
  {
  }

  /** A perfect score earns 20 per question, the 1000 bonus, and the 500
      on a first attempt. */
  lemma PerfectScore(w: AwardWorld, totalQuestions: nat)
    requires !Refused(w) && totalQuestions > 0
    ensures AwardXP(w, totalQuestions, totalQuestions)
         == 20 * totalQuestions + 1000 + FirstAttemptBonus(w.completedCount)
  {
    MasteryTiers(totalQuestions, totalQuestions);
  }

  // ---------------------------------------------------------------------
  // validateMockTestAnswers
  // ---------------------------------------------------------------------

  datatype Validation = Validation(valid: bool, missingQuestions: seq<string>)

  function NotSaved(saved: set<string>): string -> bool {
    (q: string) => q !in saved
  }

  /** The expected ids with no saved answer, in expected order. */
  function Missing(expected: seq<string>, saved: seq<string>): (r: seq<string>)
    ensures forall i | 0 <= i < |r| :: r[i] !in saved
  {
    Lists.Filter(expected, NotSaved(set q | q in saved))
  }

  /** `validateMockTestAnswers` given the saved-answer query. */
  function ValidateAnswers(expected: seq<string>, saved: Query<seq<string>>): (r: ActionResult<Validation>)
    ensures r.success <==> saved.Ok?
    ensures r.success <==> r.data.Some?
    ensures saved.Error? ==> r.message == "Хариултыг шалгаж чадсангүй"
    ensures saved.Thrown? ==> r.message == "Алдаа гарлаа"
  {
    match saved
    case Thrown => ActionResult(false, "Алдаа гарлаа", None)
    case Error => ActionResult(false, "Хариултыг шалгаж чадсангүй", None)
    case Ok(rows) =>
      var missing := Missing(expected, rows.GetOr([]));
      ActionResult(true, "Амжилттай", Some(Validation(|missing| == 0, missing)))
  }

  /** An id is reported missing exactly when it is expected and has no
      saved answer; the attempt is valid exactly when every expected id
      has one. */
  lemma ValidateMeaning(expected: seq<string>, rows: Option<seq<string>>, q: string)
    ensures var v := ValidateAnswers(expected, Ok(rows)).data.value;
      && (q in v.missingQuestions <==> q in expected && q !in rows.GetOr([]))
      && (v.valid <==> forall e | e in expected :: e in rows.GetOr([]))
  {
    var saved := rows.GetOr([]);
    var p := NotSaved(set x | x in saved);
    Lists.FilterIn(expected, p);
    Lists.FilterHas(expected, p);
    var missing := Missing(expected, saved);
    if !(forall e | e in expected :: e in saved) {
      var e :| e in expected && e !in saved;
      assert e in missing;
    }
    if |missing| > 0 {
      assert missing[0] in missing;
      assert missing[0] in expected && missing[0] !in saved;
    }
  }

  /** Missing ids keep their order: checking two lists one after the other
      is checking their concatenation. */
  lemma MissingInOrder(a: seq<string>, b: seq<string>, saved: seq<string>)
    ensures Missing(a + b, saved) == Missing(a, saved) + Missing(b, saved)
  {
    Lists.FilterAppend(a, b, NotSaved(set q | q in saved));
  }

  // ---------------------------------------------------------------------
  // getSavedAnswers
  // ---------------------------------------------------------------------

  datatype AnswerRow = AnswerRow(questionId: string, selectedOptionId: Option<string>)

  /** `if (answer.selected_option_id)`: present and not the empty string. */
  predicate Selected(row: AnswerRow) {
    row.selectedOptionId.Some? && row.selectedOptionId.value != ""
  }

  /** The `forEach` that fills the record, row by row. */
  function AnswerMap(rows: seq<AnswerRow>): (m: map<string, string>)
  {
    if rows == [] then map[]
    else
      var m := AnswerMap(rows[..|rows| - 1]);
      var row := rows[|rows| - 1];
      if Selected(row) then m[row.questionId := row.selectedOptionId.value] else m
  }

  /** `getSavedAnswers` given the answer query. */
  function GetSavedAnswers(answers: Query<seq<AnswerRow>>): (r: ActionResult<map<string, string>>)
    ensures r.success <==> answers.Ok?
    ensures r.success <==> r.data.Some?
    ensures answers.Error? ==> r.message == "Хариултууд татаж чадсангүй"
    ensures answers.Thrown? ==> r.message == "Алдаа гарлаа"
  {
    match answers
    case Thrown => ActionResult(false, "Алдаа гарлаа", None)
    case Error => ActionResult(false, "Хариултууд татаж чадсангүй", None)
    case Ok(rows) => ActionResult(true, "Амжилттай", Some(AnswerMap(rows.GetOr([]))))
  }

  /** A question has an entry exactly when some row selects an option for
      it. */
  lemma {:induction false} AnswerMapKeys(rows: seq<AnswerRow>, q: string)
    ensures q in AnswerMap(rows) <==> exists i | 0 <= i < |rows| :: rows[i].questionId == q && Selected(rows[i])
  {
    if rows != [] {
      var init := rows[..|rows| - 1];
      AnswerMapKeys(init, q);
      if exists i | 0 <= i < |init| :: init[i].questionId == q && Selected(init[i]) {
        var i :| 0 <= i < |init| && init[i].questionId == q && Selected(init[i]);
        assert rows[i] == init[i];
      }
      if exists i | 0 <= i < |rows| :: rows[i].questionId == q && Selected(rows[i]) {
        var i :| 0 <= i < |rows| && rows[i].questionId == q && Selected(rows[i]);
        if i < |init| {
          assert init[i] == rows[i];
        }
      }
    }
  }

  /** The entry is the option of the last row that selects one: a later
      row for the same question overwrites an earlier one. */
  lemma {:induction false} AnswerMapLastWins(rows: seq<AnswerRow>, i: nat)
    requires i < |rows| && Selected(rows[i])
    requires forall j | i < j < |rows| :: !(rows[j].questionId == rows[i].questionId && Selected(rows[j]))
    ensures rows[i].questionId in AnswerMap(rows)
    ensures AnswerMap(rows)[rows[i].questionId] == rows[i].selectedOptionId.value
  {
    var init := rows[..|rows| - 1];
    if i < |rows| - 1 {
      assert init[i] == rows[i];
      forall j | i < j < |init|
        ensures !(init[j].questionId == init[i].questionId && Selected(init[j]))
      {
        assert init[j] == rows[j];
      }
      AnswerMapLastWins(init, i);
    }
  }

  // ---------------------------------------------------------------------
  // updateTimerState
  // ---------------------------------------------------------------------

  /** `updateTimerState`, kept for compatibility: whatever the attempt and
      the remaining time, the stored state `db` is left as it is and
      success is reported. */
  function UpdateTimerState<S>(db: S, attemptId: string, timeRemainingSeconds: int): (r: (S, ActionResult<()>))
  {
    (db, ActionResult(true, "Амжилттай (deprecated)", None))
  }

  lemma TimerUpdateChangesNothing<S>(db: S, attemptId: string, seconds: int, otherId: string, otherSeconds: int)
    ensures UpdateTimerState(db, attemptId, seconds).0 == db
    ensures UpdateTimerState(db, attemptId, seconds).1.success
    ensures UpdateTimerState(db, attemptId, seconds) == UpdateTimerState(db, otherId, otherSeconds)
  {
  }
}
