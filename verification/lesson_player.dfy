/**
 * The lesson player's shared state (`LessonPlayerProvider`) and its
 * updates: which lesson is current, the progress figures, the lessons
 * marked complete in the sidebar, and the steps known to be done for each
 * lesson. Each update is a function from the state before to the state
 * after; a step status fetched from the server is an input.
 */
module LessonPlayer {
  import opened Wrappers
  import Lists
  import JsMath
  import LessonUtils
  import LessonStepProgress

  type Item = LessonUtils.SidebarItem
  type Unit = LessonUtils.SidebarSection

  datatype ProgressData = ProgressData(completed: int, total: int, percentage: int, streak: Option<int>, totalXp: int)

  /** A `Partial<ProgressData>`: the fields that are supplied. */
  datatype ProgressPatch = ProgressPatch(completed: Option<int>, total: Option<int>, percentage: Option<int>,
                                         streak: Option<Option<int>>, totalXp: Option<int>)

  datatype SidebarData = SidebarData(courseTitle: string, courseSlug: string, courseId: string,
                                     units: Option<seq<Unit>>, progress: ProgressData,
                                     lessonStepsMap: map<string, seq<string>>)

  datatype LessonInfo = LessonInfo(title: string, content: Option<string>)

  /** The provider's state; `pending` is the set of lessons with a step
      fetch in flight. */
  datatype Player = Player(sidebar: Option<SidebarData>, currentLessonId: Option<string>, currentStep: string,
                           availableSteps: seq<string>, isUnitQuiz: bool, lessonInfo: Option<LessonInfo>,
                           completedSteps: map<string, set<string>>, loading: set<string>, pending: set<string>)

  function Init(initialData: SidebarData): Player {
    Player(Some(initialData), None, "theory", [], false, None, map[], {}, {})
  }

  // ---------------------------------------------------------------------
  // setCurrentLesson
  // ---------------------------------------------------------------------

  function WithCurrent(units: seq<Unit>, lessonId: string): (r: seq<Unit>)
    ensures |r| == |units|
  {
    seq(|units|, u requires 0 <= u < |units| =>
      units[u].(items := seq(|units[u].items|, i requires 0 <= i < |units[u].items| =>
        units[u].items[i].(current := units[u].items[i].id == lessonId))))
  }

  /** `setCurrentLesson`: the lesson, step, step list and quiz flag are
      replaced, the lesson info only when one is given, and in the sidebar
      the current mark moves to the lesson. */
  function SetCurrentLesson(p: Player, lessonId: string, step: string, steps: seq<string>,
                            unitQuiz: bool, lessonInfo: Option<LessonInfo>): (r: Player)
    ensures r.currentLessonId == Some(lessonId) && r.currentStep == step && r.availableSteps == steps
    ensures r.isUnitQuiz == unitQuiz
    ensures r.lessonInfo == (if lessonInfo.Some? then lessonInfo else p.lessonInfo)
    ensures r.completedSteps == p.completedSteps && r.loading == p.loading && r.pending == p.pending
  {
    var sidebar :=
      if p.sidebar.Some? && p.sidebar.value.units.Some?
      then Some(p.sidebar.value.(units := Some(WithCurrent(p.sidebar.value.units.value, lessonId))))
      else p.sidebar;
    p.(currentLessonId := Some(lessonId), currentStep := step, availableSteps := steps, isUnitQuiz := unitQuiz,
       lessonInfo := if lessonInfo.Some? then lessonInfo else p.lessonInfo, sidebar := sidebar)
  }

  /** In the sidebar exactly the items of the lesson are current afterwards,
      every item keeps its other fields and its place, and the progress is
      untouched. */
  lemma CurrentExactlyOnLesson(p: Player, lessonId: string, step: string, steps: seq<string>,
                               unitQuiz: bool, lessonInfo: Option<LessonInfo>, u: nat, i: nat)
    requires p.sidebar.Some? && p.sidebar.value.units.Some?
    requires u < |p.sidebar.value.units.value| && i < |p.sidebar.value.units.value[u].items|
    ensures var s := SetCurrentLesson(p, lessonId, step, steps, unitQuiz, lessonInfo).sidebar;
      var before := p.sidebar.value.units.value[u];
      && s.Some? && s.value.units.Some? && |s.value.units.value| == |p.sidebar.value.units.value|
      && s.value.progress == p.sidebar.value.progress
      && var after := s.value.units.value[u];
      && after.section == before.section && |after.items| == |before.items|
      && (after.items[i].current <==> before.items[i].id == lessonId)
      && after.items[i].(current := before.items[i].current) == before.items[i]
  {
  }

  // ---------------------------------------------------------------------
  // updateProgress
  // ---------------------------------------------------------------------

  /** `{ ...prev.progress, ...newProgress }`. */
  function Patch(prev: ProgressData, patch: ProgressPatch): ProgressData {
    ProgressData(patch.completed.GetOr(prev.completed), patch.total.GetOr(prev.total),
                 patch.percentage.GetOr(prev.percentage), patch.streak.GetOr(prev.streak),
                 patch.totalXp.GetOr(prev.totalXp))
  }

  /** `updateProgress`; nothing happens without sidebar data. */
  function UpdateProgress(p: Player, patch: ProgressPatch): Player {
    if p.sidebar.None? then p
    else p.(sidebar := Some(p.sidebar.value.(progress := Patch(p.sidebar.value.progress, patch))))
  }

  /** A supplied field is overwritten, a missing one kept, and nothing
      outside the progress figures changes. */
  lemma UpdateProgressFields(p: Player, patch: ProgressPatch)
    requires p.sidebar.Some?
    ensures var q := UpdateProgress(p, patch);
      var prev := p.sidebar.value.progress;
      && q.sidebar.Some?
      && var now := q.sidebar.value.progress;
      && q.sidebar.value.(progress := prev) == p.sidebar.value
      && q.(sidebar := p.sidebar) == p
      && (patch.completed.Some? ==> now.completed == patch.completed.value)
      && (patch.completed.None? ==> now.completed == prev.completed)
      && (patch.total.Some? ==> now.total == patch.total.value)
      && (patch.total.None? ==> now.total == prev.total)
      && (patch.percentage.Some? ==> now.percentage == patch.percentage.value)
      && (patch.percentage.None? ==> now.percentage == prev.percentage)
      && (patch.streak.Some? ==> now.streak == patch.streak.value)
      && (patch.streak.None? ==> now.streak == prev.streak)
      && (patch.totalXp.Some? ==> now.totalXp == patch.totalXp.value)
      && (patch.totalXp.None? ==> now.totalXp == prev.totalXp)
  {
  }

  // ---------------------------------------------------------------------
  // markLessonComplete
  // ---------------------------------------------------------------------

  function MarkItem(item: Item, lessonId: string): Item {
    if item.id == lessonId then item.(completed := true) else item
  }

  function MarkItems(items: seq<Item>, lessonId: string): (r: seq<Item>)
    ensures |r| == |items|
    ensures forall i | 0 <= i < |r| :: r[i] == MarkItem(items[i], lessonId)
  {
    seq(|items|, i requires 0 <= i < |items| => MarkItem(items[i], lessonId))
  }

  function MarkUnits(units: seq<Unit>, lessonId: string): (r: seq<Unit>)
    ensures |r| == |units|
    ensures forall u | 0 <= u < |r| :: r[u] == units[u].(items := MarkItems(units[u].items, lessonId))
  {
    seq(|units|, u requires 0 <= u < |units| => units[u].(items := MarkItems(units[u].items, lessonId)))
  }

  predicate IsDone(item: Item) {
    item.completed
  }

  function ItemCount(unit: Unit): nat {
    |unit.items|
  }

  function DoneCount(unit: Unit): nat {
    Lists.Count(unit.items, IsDone)
  }

  /** `markLessonComplete`: the lesson's items are marked completed and the
      completed count, the total and the percentage are recomputed; nothing
      happens without units. */
  function MarkLessonComplete(p: Player, lessonId: string): Player {
    if p.sidebar.None? || p.sidebar.value.units.None? then p
    else
      var units := MarkUnits(p.sidebar.value.units.value, lessonId);
      var total := Lists.Sum(units, ItemCount);
      var completed := Lists.Sum(units, DoneCount);
      var progress := p.sidebar.value.progress.(completed := completed, total := total,
                                                percentage := JsMath.Percent(completed, total));
      p.(sidebar := Some(p.sidebar.value.(units := Some(units), progress := progress)))
  }

  /** Every lesson item of every unit, in sidebar order. */
  function AllItems(units: seq<Unit>): seq<Item> {
    if units == [] then [] else AllItems(units[..|units| - 1]) + units[|units| - 1].items
  }

  /** The recomputed figures count the sidebar's items: the total is the
      number of items and the completed count the number of completed
      ones. */
  lemma {:induction false} SumsCountItems(units: seq<Unit>)
    ensures Lists.Sum(units, ItemCount) == |AllItems(units)|
    ensures Lists.Sum(units, DoneCount) == Lists.Count(AllItems(units), IsDone)
  {
    if units != [] {
      SumsCountItems(units[..|units| - 1]);
      Lists.CountAppend(AllItems(units[..|units| - 1]), units[|units| - 1].items, IsDone);
    }
  }

  /** The items not completed yet that belong to the lesson. */
  function NewlyDone(lessonId: string): Item -> bool {
    (item: Item) => item.id == lessonId && !item.completed
  }

  lemma {:induction false} CountMarkedItems(items: seq<Item>, lessonId: string)
    ensures Lists.Count(MarkItems(items, lessonId), IsDone)
         == Lists.Count(items, IsDone) + Lists.Count(items, NewlyDone(lessonId))
  {
    if items != [] {
      var init := items[..|items| - 1];
      CountMarkedItems(init, lessonId);
      assert MarkItems(items, lessonId)[..|items| - 1] == MarkItems(init, lessonId);
    }
  }

  lemma {:induction false} AllItemsMarked(units: seq<Unit>, lessonId: string)
    ensures AllItems(MarkUnits(units, lessonId)) == MarkItems(AllItems(units), lessonId)
  {
    if units != [] {
      var init := units[..|units| - 1];
      AllItemsMarked(init, lessonId);
      assert MarkUnits(units, lessonId)[..|units| - 1] == MarkUnits(init, lessonId);
      var a, b := AllItems(init), units[|units| - 1].items;
      assert MarkItems(a + b, lessonId) == MarkItems(a, lessonId) + MarkItems(b, lessonId);
    }
  }

  /** After `markLessonComplete` the figures describe the marked sidebar:
      the total is the number of items, the completed count is the number
      completed before plus the lesson's items that were not, and the
      percentage is the rounded share (0 for an empty sidebar). The
      streak and the XP total are kept. */
  lemma MarkLessonProgress(p: Player, lessonId: string)
    requires p.sidebar.Some? && p.sidebar.value.units.Some?
    ensures var q := MarkLessonComplete(p, lessonId).sidebar.value;
      var before := AllItems(p.sidebar.value.units.value);
      && q.units.Some?
      && q.progress.total == |AllItems(q.units.value)| == |before|
      && q.progress.completed == Lists.Count(AllItems(q.units.value), IsDone)
                              == Lists.Count(before, IsDone) + Lists.Count(before, NewlyDone(lessonId))
      && q.progress.percentage == JsMath.Percent(q.progress.completed, q.progress.total)
      && (q.progress.total == 0 ==> q.progress.percentage == 0)
      && 0 <= q.progress.percentage <= 100
      && q.progress.streak == p.sidebar.value.progress.streak
      && q.progress.totalXp == p.sidebar.value.progress.totalXp
  {
    var units := p.sidebar.value.units.value;
    var marked := MarkUnits(units, lessonId);
    SumsCountItems(marked);
    AllItemsMarked(units, lessonId);
    CountMarkedItems(AllItems(units), lessonId);
  }

  /** The lesson's items are completed afterwards and every other item is
      exactly as it was; without units nothing changes. */
  lemma MarkLessonItems(p: Player, lessonId: string)
    ensures p.sidebar.None? || p.sidebar.value.units.None? ==> MarkLessonComplete(p, lessonId) == p
    ensures p.sidebar.Some? && p.sidebar.value.units.Some? ==>
      var before := p.sidebar.value.units.value;
      var after := MarkLessonComplete(p, lessonId).sidebar.value.units.value;
      && |after| == |before|
      && forall u, i | 0 <= u < |before| && 0 <= i < |before[u].items| ::
           && after[u].section == before[u].section && |after[u].items| == |before[u].items|
           && (before[u].items[i].id == lessonId ==> after[u].items[i] == before[u].items[i].(completed := true))
           && (before[u].items[i].id != lessonId ==> after[u].items[i] == before[u].items[i])
  {
  }

  /** Marking the same lesson twice is marking it once. */
  lemma MarkLessonIdempotent(p: Player, lessonId: string)
    ensures MarkLessonComplete(MarkLessonComplete(p, lessonId), lessonId) == MarkLessonComplete(p, lessonId)
  {
    if p.sidebar.Some? && p.sidebar.value.units.Some? {
      var units := p.sidebar.value.units.value;
      var once := MarkUnits(units, lessonId);
      forall u | 0 <= u < |once|
        ensures MarkItems(once[u].items, lessonId) == once[u].items
      {
        assert forall i | 0 <= i < |once[u].items| :: MarkItem(once[u].items[i], lessonId) == once[u].items[i];
      }
      assert MarkUnits(once, lessonId) == once;
    }
  }

  // ---------------------------------------------------------------------
  // The completed steps of each lesson
  // ---------------------------------------------------------------------

  /** `prev.get(lessonId) || new Set()`. */
  function StepsOf(m: map<string, set<string>>, lessonId: string): set<string> {
    if lessonId in m then m[lessonId] else {}
  }

  /** `markStepComplete`. */
  function MarkStepComplete(p: Player, lessonId: string, step: string): Player {
    p.(completedSteps := p.completedSteps[lessonId := StepsOf(p.completedSteps, lessonId) + {step}])
  }

  /** The steps a fetched status reports done. */
  function StatusSteps(status: LessonStepProgress.StepStatus): set<string> {
    (if status.theory then {"theory"} else {}) + (if status.example then {"example"} else {})
    + (if status.test then {"test"} else {})
  }

  /** The merge of a fetched status into the lesson's steps. */
  function MergeStatus(m: map<string, set<string>>, lessonId: string, status: LessonStepProgress.StepStatus)
    : map<string, set<string>>
  {
    m[lessonId := StepsOf(m, lessonId) + StatusSteps(status)]
  }

  /** `fetchStepCompletion`, once the status has arrived: nothing happens
      for a lesson already fetched or being fetched; otherwise the status
      is merged and the lesson leaves the loading and pending sets. */
  function FetchStepCompletion(p: Player, lessonId: string, status: LessonStepProgress.StepStatus): Player {
    if lessonId in p.pending || lessonId in p.completedSteps then p
    else p.(completedSteps := MergeStatus(p.completedSteps, lessonId, status),
             loading := p.loading - {lessonId}, pending := p.pending - {lessonId})
  }

  /** `refreshStepCompletion`: the same merge, skipped only while a fetch
      for the lesson is in flight. */
  function RefreshStepCompletion(p: Player, lessonId: string, status: LessonStepProgress.StepStatus): Player {
    if lessonId in p.pending then p
    else p.(completedSteps := MergeStatus(p.completedSteps, lessonId, status),
             loading := p.loading - {lessonId}, pending := p.pending - {lessonId})
  }

  /** The step maps only grow: every lesson keeps the steps it had, the
      updated lesson gains exactly the new ones, and no other lesson's set
      changes. */
  predicate OnlyAdds(before: map<string, set<string>>, after: map<string, set<string>>,
                     lessonId: string, added: set<string>) {
    && after.Keys == before.Keys + {lessonId}
    && StepsOf(after, lessonId) == StepsOf(before, lessonId) + added
    && forall l | l in before && l != lessonId :: after[l] == before[l]
  }

  lemma MarkStepOnlyAdds(p: Player, lessonId: string, step: string)
    ensures OnlyAdds(p.completedSteps, MarkStepComplete(p, lessonId, step).completedSteps, lessonId, {step})
    ensures MarkStepComplete(p, lessonId, step).(completedSteps := p.completedSteps) == p
  {
  }

  /** A step is recorded for the lesson after a fetch exactly when it was
      recorded before or the status reports it; a fetch for a lesson
      already known changes nothing. */
  lemma FetchOnlyAdds(p: Player, lessonId: string, status: LessonStepProgress.StepStatus)
    ensures var q := FetchStepCompletion(p, lessonId, status);
      && (lessonId in p.pending || lessonId in p.completedSteps ==> q == p)
      && (lessonId !in p.pending && lessonId !in p.completedSteps ==>
            && OnlyAdds(p.completedSteps, q.completedSteps, lessonId, StatusSteps(status))
            && ("theory" in StepsOf(q.completedSteps, lessonId) <==> status.theory)
            && ("example" in StepsOf(q.completedSteps, lessonId) <==> status.example)
            && ("test" in StepsOf(q.completedSteps, lessonId) <==> status.test)
            && lessonId !in q.loading && lessonId !in q.pending)
  {
  }

  lemma RefreshOnlyAdds(p: Player, lessonId: string, status: LessonStepProgress.StepStatus)
    ensures var q := RefreshStepCompletion(p, lessonId, status);
      && (lessonId in p.pending ==> q == p)
      && (lessonId !in p.pending ==>
            && OnlyAdds(p.completedSteps, q.completedSteps, lessonId, StatusSteps(status))
            && ("theory" in StepsOf(q.completedSteps, lessonId) <==> "theory" in StepsOf(p.completedSteps, lessonId) || status.theory)
            && ("example" in StepsOf(q.completedSteps, lessonId) <==> "example" in StepsOf(p.completedSteps, lessonId) || status.example)
            && ("test" in StepsOf(q.completedSteps, lessonId) <==> "test" in StepsOf(p.completedSteps, lessonId) || status.test))
  {
  }

  /** A refresh never takes back a step marked complete, whatever the
      server reports. */
  lemma MarkedStepSurvivesRefresh(p: Player, lessonId: string, step: string, other: string,
                                  status: LessonStepProgress.StepStatus)
    ensures var q := RefreshStepCompletion(MarkStepComplete(p, lessonId, step), other, status);
      step in StepsOf(q.completedSteps, lessonId)
  {
  }
}
