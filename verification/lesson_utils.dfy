/** The course player's lesson helpers: the sidebar sections, the course
    progress figures and the previous/next lesson links. */
module LessonUtils {
  import opened Wrappers
  import opened Text
  import Lists
  import Grouping
  import JsMath
  import Utils
  import Formatters

  datatype Lesson = Lesson(
    id: string,
    title: string,
    sectionTitle: Option<string>,
    lessonType: string,
    durationSeconds: Option<nat>)

  datatype SidebarItem = SidebarItem(
    id: string,
    title: string,
    duration: string,
    lessonType: string,
    completed: bool,
    current: bool,
    locked: bool)

  datatype SidebarSection = SidebarSection(section: string, items: seq<SidebarItem>)

  // ---------------------------------------------------------------------
  // Sidebar
  // ---------------------------------------------------------------------

  /** `lesson.section_title || "Uncategorized"`: a missing or empty title
      files the lesson under "Uncategorized". */
  function SectionKey(l: Lesson): string {
    if l.sectionTitle.None? || l.sectionTitle.value == "" then "Uncategorized" else l.sectionTitle.value
  }

  /** The duration column: the clock time of a video with a non-zero
      duration, "Quiz" for a quiz, "Assignment" for anything else. */
  function DurationLabel(l: Lesson): string {
    if l.lessonType == "video" && l.durationSeconds.Some? && l.durationSeconds.value != 0 then
      Utils.FormatTime(l.durationSeconds.value)
    else if l.lessonType == "quiz" then "Quiz"
    else "Assignment"
  }

  /** A video's label reads back as its duration; every other lesson gets
      one of the two fixed words. */
  lemma DurationLabelReads(l: Lesson)
    ensures l.lessonType == "video" && l.durationSeconds.Some? && l.durationSeconds.value > 0 ==>
      Formatters.ParseClock(DurationLabel(l)) == Some(l.durationSeconds.value)
    ensures !(l.lessonType == "video" && l.durationSeconds.Some? && l.durationSeconds.value > 0) ==>
      DurationLabel(l) == (if l.lessonType == "quiz" then "Quiz" else "Assignment")
  {
    if l.lessonType == "video" && l.durationSeconds.Some? && l.durationSeconds.value > 0 {
      Utils.FormatTimeParse(l.durationSeconds.value);
    }
  }

  /** One sidebar row. */
  function ToItem(l: Lesson, currentId: string, completedIds: seq<string>): (r: SidebarItem)
    ensures r.id == l.id && r.title == l.title && r.lessonType == l.lessonType
    ensures r.completed <==> l.id in completedIds
    ensures r.current <==> l.id == currentId
    ensures !r.locked
  {
    SidebarItem(l.id, l.title, DurationLabel(l), l.lessonType, l.id in completedIds, l.id == currentId, false)
  }

  function ToItems(ls: seq<Lesson>, currentId: string, completedIds: seq<string>): (r: seq<SidebarItem>)
    ensures |r| == |ls| && forall j | 0 <= j < |ls| :: r[j] == ToItem(ls[j], currentId, completedIds)
  {
    seq(|ls|, j requires 0 <= j < |ls| => ToItem(ls[j], currentId, completedIds))
  }

  /** `transformLessonsForSidebar`: one section per distinct section key, in
      order of first appearance, listing that key's lessons in input order. */
  function TransformForSidebar(allLessons: seq<Lesson>, currentId: string, completedIds: seq<string> := []): (r: seq<SidebarSection>)
    ensures |r| == |Grouping.KeysInOrder(allLessons, SectionKey)|
    ensures forall i | 0 <= i < |r| ::
      r[i].section == Grouping.KeysInOrder(allLessons, SectionKey)[i] &&
      r[i].items == ToItems(Grouping.WithKey(allLessons, SectionKey, r[i].section), currentId, completedIds)
  {
    var gs := Grouping.GroupBy(allLessons, SectionKey);
    Grouping.GroupByIsGroups(allLessons, SectionKey);
    seq(|gs|, i requires 0 <= i < |gs| => SidebarSection(gs[i].0, ToItems(gs[i].1, currentId, completedIds)))
  }

  /** Each lesson is listed in exactly one section: the one named by its key. */
  lemma SidebarPlacement(allLessons: seq<Lesson>, currentId: string, completedIds: seq<string>, k: nat)
    requires k < |allLessons|
    ensures exists i | 0 <= i < |TransformForSidebar(allLessons, currentId, completedIds)| ::
      TransformForSidebar(allLessons, currentId, completedIds)[i].section == SectionKey(allLessons[k])
    ensures forall i, j | 0 <= i < j < |TransformForSidebar(allLessons, currentId, completedIds)| ::
      TransformForSidebar(allLessons, currentId, completedIds)[i].section != TransformForSidebar(allLessons, currentId, completedIds)[j].section
  {
    var r := TransformForSidebar(allLessons, currentId, completedIds);
    var ks := Grouping.KeysInOrder(allLessons, SectionKey);
    var i :| 0 <= i < |ks| && ks[i] == SectionKey(allLessons[k]);
    assert r[i].section == SectionKey(allLessons[k]);
  }

  // ---------------------------------------------------------------------
  // Course progress
  // ---------------------------------------------------------------------

  datatype CourseProgress = CourseProgress(completed: int, total: int, percentage: int, totalXp: int)

  /** `calculateCourseProgress`: the counts echoed, the completed share as a
      whole percentage (0 for an empty course) and no XP yet. */
  function CalculateCourseProgress(totalLessons: int, completedLessons: int := 0): (r: CourseProgress)
    ensures r.completed == completedLessons && r.total == totalLessons && r.totalXp == 0
    ensures totalLessons <= 0 ==> r.percentage == 0
    ensures totalLessons > 0 ==>
      2 * totalLessons * r.percentage - totalLessons <= 200 * completedLessons < 2 * totalLessons * r.percentage + totalLessons
    ensures 0 <= completedLessons <= totalLessons ==> 0 <= r.percentage <= 100
  {
    CourseProgress(completedLessons, totalLessons, JsMath.Percent(completedLessons, totalLessons), 0)
  }

  /** A finished course shows 100, an untouched one 0. */
  lemma ProgressEnds(totalLessons: int)
    requires totalLessons > 0
    ensures CalculateCourseProgress(totalLessons, totalLessons).percentage == 100
    ensures CalculateCourseProgress(totalLessons).percentage == 0
  {
    JsMath.RoundUnique(100 * totalLessons, totalLessons, 100);
    JsMath.RoundUnique(0, totalLessons, 0);
  }

  // ---------------------------------------------------------------------
  // Previous and next lesson
  // ---------------------------------------------------------------------

  datatype NavigationUrls = NavigationUrls(previous: Option<string>, next: Option<string>)

  const CoursesPrefix: string := "/courses/"
  const LearnInfix: string := "/learn/"

  function LessonUrl(slug: string, id: string): string {
    CoursesPrefix + slug + LearnInfix + id
  }

  /** Within one course, different lessons have different links. */
  lemma LessonUrlInjective(slug: string, a: string, b: string)
    requires LessonUrl(slug, a) == LessonUrl(slug, b)
    ensures a == b
  {
    var p := CoursesPrefix + slug + LearnInfix;
    assert LessonUrl(slug, a) == p + a && LessonUrl(slug, b) == p + b;
    assert a == LessonUrl(slug, a)[|p|..];
  }

  function IdIs(id: string): Lesson -> bool {
    (l: Lesson) => l.id == id
  }

  /** `getNavigationUrls`: links to the neighbours of the current lesson's
      first position; an unknown lesson counts as position -1. */
  function GetNavigationUrls(allLessons: seq<Lesson>, currentId: string, courseSlug: string): (r: NavigationUrls)
    ensures var idx := Lists.FindIndex(allLessons, IdIs(currentId));
      && (r.previous.Some? <==> idx > 0)
      && (idx > 0 ==> r.previous == Some(LessonUrl(courseSlug, allLessons[idx - 1].id)))
      && (r.next.Some? <==> idx < |allLessons| - 1)
      && (idx < |allLessons| - 1 ==> r.next == Some(LessonUrl(courseSlug, allLessons[idx + 1].id)))
  {
    var idx := Lists.FindIndex(allLessons, IdIs(currentId));
    var previous := if idx > 0 then Some(LessonUrl(courseSlug, allLessons[idx - 1].id)) else None;
    var next := if idx < |allLessons| - 1 then Some(LessonUrl(courseSlug, allLessons[idx + 1].id)) else None;
    NavigationUrls(previous, next)
  }

  /** In a course whose lesson ids are distinct, the links are the lessons
      right before and right after the current one. */
  lemma NavigationAt(allLessons: seq<Lesson>, i: nat, courseSlug: string)
    requires i < |allLessons|
    requires forall a, b | 0 <= a < b < |allLessons| :: allLessons[a].id != allLessons[b].id
    ensures GetNavigationUrls(allLessons, allLessons[i].id, courseSlug).previous
      == (if i > 0 then Some(LessonUrl(courseSlug, allLessons[i - 1].id)) else None)
    ensures GetNavigationUrls(allLessons, allLessons[i].id, courseSlug).next
      == (if i + 1 < |allLessons| then Some(LessonUrl(courseSlug, allLessons[i + 1].id)) else None)
  {
    var p := IdIs(allLessons[i].id);
    assert p(allLessons[i]);
    assert forall k | 0 <= k < |allLessons| && k != i :: !p(allLessons[k]);
    Lists.FindIndexDistinct(allLessons, i, p);
  }

  /** An unknown lesson has no previous link, and its next link is the
      course's first lesson. */
  lemma NavigationUnknown(allLessons: seq<Lesson>, currentId: string, courseSlug: string)
    requires forall k | 0 <= k < |allLessons| :: allLessons[k].id != currentId
    requires |allLessons| >= 1
    ensures GetNavigationUrls(allLessons, currentId, courseSlug).previous == None
    ensures GetNavigationUrls(allLessons, currentId, courseSlug).next == Some(LessonUrl(courseSlug, allLessons[0].id))
  {
    var p := IdIs(currentId);
    assert forall k | 0 <= k < |allLessons| :: !p(allLessons[k]);
  }
}
