/**
 * Progress on the individual content items (theory and example videos) of
 * a lesson: `saveContentProgress` with its rewatch and XP rule, the
 * merged view `getContentProgress`, and `isLessonContentComplete`. The
 * stored progress row is the state; the signed-in user, the enrollment,
 * the content row, the lesson-completion check and the failures of the
 * writes are inputs.
 */
module LessonContentProgress {
  import opened Wrappers
  import Lists
  import Text

  /** The content types that earn XP and gate the lesson: theory and example. */
  predicate Required(contentType: string) {
    contentType == "theory" || contentType == "example"
  }

  /** A row of `lesson_content_progress`; the position and the XP columns
      may be null. */
  datatype ProgressRow = ProgressRow(contentId: string, isCompleted: bool, completedAt: Option<string>,
                                     lastPosition: Option<int>, xpAwarded: Option<nat>)

  // ---------------------------------------------------------------------
  // saveContentProgress
  // ---------------------------------------------------------------------

  datatype Content = Content(contentType: string, title: string)

  /** What `checkAndCompleteLessonIfReady` reports. */
  datatype LessonCheck = LessonCheck(lessonComplete: bool, contentComplete: bool, unitXpAwarded: Option<nat>)

  /** The answers of the calls around the stored row: the signed-in user,
      whether an enrollment is found, the content row, whether the upsert
      fails, the clock, and the lesson-completion check. */
  datatype SaveEnv = SaveEnv(user: Option<string>, enrolled: bool, content: Option<Content>,
                             upsertFails: bool, now: string, check: LessonCheck)

  /** An XP transaction to insert. */
  datatype Award = Award(userId: string, amount: nat, sourceType: string, sourceId: string)

  datatype SaveResult = SaveResult(success: bool, message: string, xpAwarded: Option<nat>,
                                   unitXpAwarded: Option<nat>, isRewatch: Option<bool>,
                                   lessonComplete: Option<bool>, readyForQuiz: Option<bool>)

  /** The reply, the progress row stored afterwards, the XP transaction
      inserted, and whether the lesson-completion check ran. */
  datatype Save = Save(result: SaveResult, stored: Option<ProgressRow>, award: Option<Award>, checkedLesson: bool)

  /** `isRewatch`: the stored row is already completed. */
  predicate IsRewatch(existing: Option<ProgressRow>) {
    existing.Some? && existing.value.isCompleted
  }

  /** `xpToAward`. */
  function XpToAward(isCompleted: bool, rewatch: bool, contentType: string): nat {
    if isCompleted && !rewatch && Required(contentType) then 10 else 0
  }

  /** The new `completed_at`: now for a completion, the old stamp of an
      item already completed, otherwise null. */
  function CompletedAt(isCompleted: bool, existing: Option<ProgressRow>, now: string): Option<string> {
    if isCompleted then Some(now)
    else if IsRewatch(existing) then existing.value.completedAt
    else None
  }

  function Fail(existing: Option<ProgressRow>, message: string): Save {
    Save(SaveResult(false, message, None, None, None, None, None), existing, None, false)
  }

  /** `saveContentProgress`, given the row stored before the call. */
  function SaveContentProgress(contentId: string, lastPosition: int, isCompleted: bool,
                               existing: Option<ProgressRow>, env: SaveEnv): (s: Save)
    ensures !s.result.success ==> s.stored == existing && s.award.None? && !s.checkedLesson
    ensures s.result.success ==> s.stored.Some? && s.stored.value.contentId == contentId
                                 && s.stored.value.lastPosition == Some(lastPosition)
  {
    if env.user.None? then Fail(existing, "You must be logged in to save progress")
    else if !env.enrolled then Fail(existing, "You must be enrolled in this course")
    else if env.content.None? then Fail(existing, "Content not found")
    else if env.upsertFails then Fail(existing, "Error saving progress")
    else
      var content := env.content.value;
      var rewatch := IsRewatch(existing);
      var xp := XpToAward(isCompleted, rewatch, content.contentType);
      var row := ProgressRow(contentId, isCompleted, CompletedAt(isCompleted, existing, env.now), Some(lastPosition),
                             Some(if rewatch then existing.value.xpAwarded.GetOr(0) else xp));
      var award :=
        if xp > 0 && !rewatch then
          Some(Award(env.user.value, xp,
                     if content.contentType == "theory" then "lesson_theory_complete" else "lesson_example_complete",
                     contentId))
        else None;
      var check := if isCompleted then env.check else LessonCheck(false, false, None);
      var message := if rewatch then "Progress saved (rewatching)" else "You earned " + Text.NatToString(xp) + " XP!";
      Save(SaveResult(true, message, Some(xp), check.unitXpAwarded, Some(rewatch),
                      Some(check.lessonComplete), Some(check.contentComplete)),
           Some(row), award, isCompleted)
  }

  /** A save goes through exactly when the learner is signed in and
      enrolled, the content exists and the upsert succeeds. */
  lemma SaveSucceedsIff(contentId: string, lastPosition: int, isCompleted: bool,
                        existing: Option<ProgressRow>, env: SaveEnv)
    ensures SaveContentProgress(contentId, lastPosition, isCompleted, existing, env).result.success
        <==> env.user.Some? && env.enrolled && env.content.Some? && !env.upsertFails
  {
  }

  /** The XP rule: 10 XP exactly for a first completion of a theory or
      example item, otherwise none; a rewatch is reported exactly when the
      stored row was already completed. */
  lemma XpRule(contentId: string, lastPosition: int, isCompleted: bool, existing: Option<ProgressRow>, env: SaveEnv)
    requires SaveContentProgress(contentId, lastPosition, isCompleted, existing, env).result.success
    ensures var r := SaveContentProgress(contentId, lastPosition, isCompleted, existing, env).result;
      && r.isRewatch == Some(existing.Some? && existing.value.isCompleted)
      && r.xpAwarded.Some?
      && (r.xpAwarded.value == 10 <==> isCompleted && !(existing.Some? && existing.value.isCompleted)
                                        && (env.content.value.contentType == "theory" || env.content.value.contentType == "example"))
      && (r.xpAwarded.value != 10 ==> r.xpAwarded.value == 0)
  {
  }

  /** The stored row: its completion flag is always the call's flag, its
      XP column keeps its old value (null read as 0) on a rewatch and is
      the XP of this call otherwise, and its completion stamp is now for a
      completion, the old stamp of an item already completed, and null
      otherwise. */
  lemma StoredRow(contentId: string, lastPosition: int, isCompleted: bool, existing: Option<ProgressRow>, env: SaveEnv)
    requires SaveContentProgress(contentId, lastPosition, isCompleted, existing, env).result.success
    ensures var s := SaveContentProgress(contentId, lastPosition, isCompleted, existing, env);
      var row := s.stored.value;
      && row.isCompleted == isCompleted
      && (existing.Some? && existing.value.isCompleted ==> row.xpAwarded == Some(existing.value.xpAwarded.GetOr(0)))
      && (!(existing.Some? && existing.value.isCompleted) ==> row.xpAwarded == s.result.xpAwarded)
      && (isCompleted ==> row.completedAt == Some(env.now))
      && (!isCompleted && existing.Some? && existing.value.isCompleted ==> row.completedAt == existing.value.completedAt)
      && (!isCompleted && !(existing.Some? && existing.value.isCompleted) ==> row.completedAt.None?)
  {
  }

  /** An XP transaction is inserted exactly when 10 XP are reported, keyed
      by the content id and typed by the content. */
  lemma AwardIff(contentId: string, lastPosition: int, isCompleted: bool, existing: Option<ProgressRow>, env: SaveEnv)
    ensures var s := SaveContentProgress(contentId, lastPosition, isCompleted, existing, env);
      && (s.award.Some? <==> s.result.success && s.result.xpAwarded == Some(10))
      && (s.award.Some? ==> s.award.value == Award(env.user.value, 10,
            if env.content.value.contentType == "theory" then "lesson_theory_complete" else "lesson_example_complete",
            contentId))
  {
  }

  /** The lesson-completion check runs, and its answers are reported,
      only for a successful save that completes the item. */
  lemma LessonCheckOnCompletion(contentId: string, lastPosition: int, isCompleted: bool,
                                existing: Option<ProgressRow>, env: SaveEnv)
    ensures var s := SaveContentProgress(contentId, lastPosition, isCompleted, existing, env);
      && (s.checkedLesson <==> s.result.success && isCompleted)
      && (s.result.success && !isCompleted ==> s.result.lessonComplete == Some(false) && s.result.readyForQuiz == Some(false)
                                               && s.result.unitXpAwarded.None?)
      && (s.checkedLesson ==> s.result.lessonComplete == Some(env.check.lessonComplete)
                              && s.result.readyForQuiz == Some(env.check.contentComplete))
  {
  }

  /** Completing an item a second time is a rewatch: no XP and no
      transaction, and the stored row keeps the XP of the first time. */
  lemma SecondCompletionPaysNothing(contentId: string, p1: int, p2: int,
                                    existing: Option<ProgressRow>, first: SaveEnv, second: SaveEnv)
    requires SaveContentProgress(contentId, p1, true, existing, first).result.success
    requires SaveContentProgress(contentId, p2, true, SaveContentProgress(contentId, p1, true, existing, first).stored, second).result.success
    ensures var s1 := SaveContentProgress(contentId, p1, true, existing, first);
      var s2 := SaveContentProgress(contentId, p2, true, s1.stored, second);
      && s2.result.isRewatch == Some(true)
      && s2.result.xpAwarded == Some(0)
      && s2.award.None?
      && s2.stored.value.xpAwarded == Some(s1.stored.value.xpAwarded.GetOr(0))
  {
    var s1 := SaveContentProgress(contentId, p1, true, existing, first);
    StoredRow(contentId, p1, true, existing, first);
    assert IsRewatch(s1.stored);
    XpRule(contentId, p2, true, s1.stored, second);
    StoredRow(contentId, p2, true, s1.stored, second);
    AwardIff(contentId, p2, true, s1.stored, second);
  }

  /** A save that does not report completion clears the flag of a
      completed item, so completing it again is no rewatch and pays the
      10 XP once more. */
  lemma IncompleteSaveReopens(contentId: string, p1: int, p2: int, p3: int,
                              env1: SaveEnv, env2: SaveEnv, env3: SaveEnv)
    requires env1.user.Some? && env1.enrolled && env1.content == Some(Content("theory", "")) && !env1.upsertFails
    requires env2.user.Some? && env2.enrolled && env2.content.Some? && !env2.upsertFails
    requires env3.user.Some? && env3.enrolled && env3.content == Some(Content("theory", "")) && !env3.upsertFails
    ensures var s1 := SaveContentProgress(contentId, p1, true, None, env1);
      var s2 := SaveContentProgress(contentId, p2, false, s1.stored, env2);
      var s3 := SaveContentProgress(contentId, p3, true, s2.stored, env3);
      && s1.result.xpAwarded == Some(10) && s1.award.Some?
      && !s2.stored.value.isCompleted
      && s3.result.xpAwarded == Some(10) && s3.award.Some?
  {
  }

  // ---------------------------------------------------------------------
  // getContentProgress and isLessonContentComplete
  // ---------------------------------------------------------------------

  datatype ContentItem = ContentItem(id: string, contentType: string, title: string)

  /** One entry of the merged view. */
  datatype ContentProgress = ContentProgress(contentId: string, contentType: string, title: string,
                                             isCompleted: bool, lastPosition: int, xpAwarded: nat)

  /** The reads behind `getContentProgress`: whether the learner is signed
      in and enrolled, the lesson's content items in order (null on an
      error), and the progress rows (null on an error). */
  datatype ReadEnv = ReadEnv(signedIn: bool, enrolled: bool, items: Option<seq<ContentItem>>,
                             rows: Option<seq<ProgressRow>>)

  function RowFor(contentId: string): ProgressRow -> bool {
    (p: ProgressRow) => p.contentId == contentId
  }

  /** `progressData?.find(...)`: the first row for the item, if any. */
  function FindRow(rows: Option<seq<ProgressRow>>, contentId: string): Option<ProgressRow> {
    if rows.None? then None
    else
      var k := Lists.FindIndex(rows.value, RowFor(contentId));
      if k < 0 then None else Some(rows.value[k])
  }

  /** One entry: the item's fields with its row's values, each defaulting
      to false or 0. */
  function Merge(item: ContentItem, rows: Option<seq<ProgressRow>>): ContentProgress {
    match FindRow(rows, item.id)
    case None => ContentProgress(item.id, item.contentType, item.title, false, 0, 0)
    case Some(p) => ContentProgress(item.id, item.contentType, item.title, p.isCompleted,
                                    p.lastPosition.GetOr(0), p.xpAwarded.GetOr(0))
  }

  function MergeAll(items: seq<ContentItem>, rows: Option<seq<ProgressRow>>): (r: seq<ContentProgress>)
    ensures |r| == |items|
    ensures forall i | 0 <= i < |r| :: r[i] == Merge(items[i], rows)
  {
    if items == [] then [] else MergeAll(items[..|items| - 1], rows) + [Merge(items[|items| - 1], rows)]
  }

  /** The merged view, or `None` when a read the view cannot do without
      fails. */
  function ReadProgress(env: ReadEnv): Option<seq<ContentProgress>> {
    if !env.signedIn || !env.enrolled || env.items.None? then None
    else Some(MergeAll(env.items.value, env.rows))
  }

  /** `getContentProgress`: the merged view, or the empty list on any failure. */
  function GetContentProgress(env: ReadEnv): seq<ContentProgress> {
    ReadProgress(env).GetOr([])
  }

  /** The view lists the lesson's items in order with their own id, type
      and title; a missing row reads as not completed, position 0 and
      0 XP, and otherwise the first row for the item supplies the values. */
  lemma ContentProgressView(env: ReadEnv, i: nat)
    requires env.signedIn && env.enrolled && env.items.Some? && i < |env.items.value|
    ensures var v := GetContentProgress(env);
      var item := env.items.value[i];
      && |v| == |env.items.value|
      && v[i].contentId == item.id && v[i].contentType == item.contentType && v[i].title == item.title
      && ((env.rows.None? || forall k | 0 <= k < |env.rows.value| :: env.rows.value[k].contentId != item.id)
          ==> !v[i].isCompleted && v[i].lastPosition == 0 && v[i].xpAwarded == 0)
      && (env.rows.Some? ==> forall k | 0 <= k < |env.rows.value| && env.rows.value[k].contentId == item.id
                                   && (forall j | 0 <= j < k :: env.rows.value[j].contentId != item.id)
          :: v[i].isCompleted == env.rows.value[k].isCompleted
             && v[i].lastPosition == env.rows.value[k].lastPosition.GetOr(0)
             && v[i].xpAwarded == env.rows.value[k].xpAwarded.GetOr(0))
  {
    var item := env.items.value[i];
    if env.rows.Some? {
      var rows := env.rows.value;
      forall k | 0 <= k < |rows| && rows[k].contentId == item.id && (forall j | 0 <= j < k :: rows[j].contentId != item.id)
        ensures Lists.FindIndex(rows, RowFor(item.id)) == k
      {
        var f := Lists.FindIndex(rows, RowFor(item.id));
        assert RowFor(item.id)(rows[k]);
        assert f >= 0 && !(f < k) && !(k < f);
      }
    }
  }

  /** `getContentProgress` yields nothing when the learner is not signed
      in, not enrolled, or the items cannot be read. */
  lemma ContentProgressEmptyOnFailure(env: ReadEnv)
    requires !env.signedIn || !env.enrolled || env.items.None?
    ensures GetContentProgress(env) == []
  {
  }

  predicate IsRequired(c: ContentProgress) {
    Required(c.contentType)
  }

  /** The test `isLessonContentComplete` applies to a view: true when no
      theory or example item exists, otherwise true when every one is
      completed. */
  predicate AllRequiredDone(view: seq<ContentProgress>) {
    var required := Lists.Filter(view, IsRequired);
    if |required| == 0 then true else forall i | 0 <= i < |required| :: required[i].isCompleted
  }

  /** The test in one sentence: every theory or example item of the view is
      completed, and items of other types do not matter. */
  lemma AllRequiredDoneIff(view: seq<ContentProgress>)
    ensures AllRequiredDone(view) <==> forall i | 0 <= i < |view| :: Required(view[i].contentType) ==> view[i].isCompleted
  {
    var required := Lists.Filter(view, IsRequired);
    Lists.FilterIn(view, IsRequired);
    Lists.FilterHas(view, IsRequired);
    if AllRequiredDone(view) {
      forall i | 0 <= i < |view| && Required(view[i].contentType)
        ensures view[i].isCompleted
      {
        assert IsRequired(view[i]) && view[i] in view;
        assert view[i] in required;
      }
    } else {
      var j :| 0 <= j < |required| && !required[j].isCompleted;
      assert required[j] in required;
      var i :| 0 <= i < |view| && view[i] == required[j];
    }
  }

  /** `isLessonContentComplete` as the code is written: the test applied to
      `getContentProgress`, which turns every failure into an empty view.
      Its `catch` branch cannot be reached, since `getContentProgress`
      catches everything itself. */
  predicate IsLessonContentComplete(env: ReadEnv) {
    AllRequiredDone(GetContentProgress(env))
  }

  /** A learner who is not signed in sees every lesson as complete: a
      lesson with a theory or example item that has no progress row is
      incomplete for its enrolled learner, and complete once the sign-in
      is missing. */
  lemma FailedReadCountsAsComplete(env: ReadEnv, i: nat)
    requires env.enrolled && env.items.Some? && i < |env.items.value|
    requires Required(env.items.value[i].contentType) && FindRow(env.rows, env.items.value[i].id).None?
    ensures !IsLessonContentComplete(env.(signedIn := true))
    ensures IsLessonContentComplete(env.(signedIn := false))
  {
    var view := MergeAll(env.items.value, env.rows);
    AllRequiredDoneIff(view);
    assert view[i] == Merge(env.items.value[i], env.rows);
  }

  /** `isLessonContentComplete` with the failure answer its `catch` branch
      was written for: false whenever the view cannot be read. */
  predicate IsLessonContentCompleteChecked(env: ReadEnv) {
    match ReadProgress(env)
    case None => false
    case Some(view) => AllRequiredDone(view)
  }

  /** The test on a merged view in terms of the reads: every theory or
      example item has a first progress row, and that row is completed. */
  lemma MergedDoneIff(items: seq<ContentItem>, rows: Option<seq<ProgressRow>>)
    ensures AllRequiredDone(MergeAll(items, rows)) <==>
      forall i | 0 <= i < |items| :: Required(items[i].contentType)
        ==> FindRow(rows, items[i].id).Some? && FindRow(rows, items[i].id).value.isCompleted
  {
    var view := MergeAll(items, rows);
    AllRequiredDoneIff(view);
    forall i | 0 <= i < |items|
      ensures Required(view[i].contentType) <==> Required(items[i].contentType)
      ensures view[i].isCompleted <==> FindRow(rows, items[i].id).Some? && FindRow(rows, items[i].id).value.isCompleted
    {
      assert view[i] == Merge(items[i], rows);
    }
  }

  /** The checked test holds exactly when the view can be read and every
      theory or example item of the lesson has a completed progress row. */
  lemma CheckedCompleteIff(env: ReadEnv)
    ensures IsLessonContentCompleteChecked(env) <==>
      && env.signedIn && env.enrolled && env.items.Some?
      && forall i | 0 <= i < |env.items.value| :: Required(env.items.value[i].contentType)
           ==> FindRow(env.rows, env.items.value[i].id).Some? && FindRow(env.rows, env.items.value[i].id).value.isCompleted
  {
    if env.signedIn && env.enrolled && env.items.Some? {
      MergedDoneIff(env.items.value, env.rows);
    }
  }
}
