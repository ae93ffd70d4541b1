/** The shared display helpers: initials, minute durations, clock times,
    dashboard statistics and the next lesson a learner should open. */
module Utils {
  import opened Wrappers
  import opened Text
  import Lists
  import Levels
  import Formatters

  // ---------------------------------------------------------------------
  // Initials
  // ---------------------------------------------------------------------

  /** `toUpperCase` on one character, for the alphabets the app's names are
      written in: ASCII, basic Cyrillic and the Mongolian letters ө and ү. */
  function UpperChar(c: char): (r: char)
    ensures 'a' <= c <= 'z' ==> r == AsciiUpper(c)
    ensures r != c ==> IsLowerLetter(c)
  {
    if 'a' <= c <= 'z' then AsciiUpper(c)
    else if 'а' <= c <= 'я' then (c as int - 0x20) as char
    else if 'ѐ' <= c <= 'џ' then (c as int - 0x50) as char
    else if c == 'ө' then 'Ө'
    else if c == 'ү' then 'Ү'
    else c
  }

  predicate IsLowerLetter(c: char) {
    'a' <= c <= 'z' || 'а' <= c <= 'џ' || c == 'ө' || c == 'ү'
  }

  /** Upper-casing twice changes nothing more. */
  lemma UpperIdempotent(c: char)
    ensures UpperChar(UpperChar(c)) == UpperChar(c)
  {
  }

  predicate NonEmpty(w: string) {
    w != []
  }

  /** `parts.map(n => n[0]).join("")`: the first character of every part.
      An empty part's `n[0]` is `undefined`, which `join` writes as nothing. */
  function Firsts(parts: seq<string>): (r: string)
    ensures |r| == Lists.Count(parts, NonEmpty)
  {
    if parts == [] then []
    else
      var last := parts[|parts| - 1];
      Firsts(parts[..|parts| - 1]) + (if last == [] then [] else [last[0]])
  }

  /** `getInitials`: the upper-cased first character of each word between
      single spaces. */
  function Initials(name: string): (r: string)
    ensures |r| == Lists.Count(SplitOn(name, ' '), NonEmpty)
    ensures ' ' !in r
  {
    var parts := SplitOn(name, ' ');
    var firsts := Firsts(parts);
    FirstsAvoid(parts, ' ');
    UpperAvoidsSpace(firsts);
    MapChars(firsts, UpperChar)
  }

  lemma UpperAvoidsSpace(s: string)
    requires ' ' !in s
    ensures ' ' !in MapChars(s, UpperChar)
  {
    var r := MapChars(s, UpperChar);
    forall i | 0 <= i < |r|
      ensures r[i] != ' '
    {
      assert r[i] == UpperChar(s[i]);
    }
  }

  /** No first character is the separator the parts were split at. */
  lemma {:induction false} FirstsAvoid(parts: seq<string>, c: char)
    requires forall i | 0 <= i < |parts| :: c !in parts[i]
    ensures c !in Firsts(parts)
  {
    if parts != [] {
      var init := parts[..|parts| - 1];
      assert forall i | 0 <= i < |init| :: init[i] == parts[i];
      FirstsAvoid(init, c);
    }
  }

  /** For words that are all non-empty, there is one first character each. */
  lemma {:induction false} FirstsOfWords(words: seq<string>)
    requires forall i | 0 <= i < |words| :: words[i] != []
    ensures |Firsts(words)| == |words|
    ensures forall i | 0 <= i < |words| :: Firsts(words)[i] == words[i][0]
  {
    if words != [] {
      var init := words[..|words| - 1];
      assert forall i | 0 <= i < |init| :: init[i] == words[i];
      FirstsOfWords(init);
    }
  }

  /** A name made of words separated by single spaces has one initial per
      word, the upper-cased first character. */
  lemma InitialsOfWords(words: seq<string>)
    requires |words| >= 1
    requires forall i | 0 <= i < |words| :: words[i] != [] && ' ' !in words[i]
    ensures |Initials(Join(words, " "))| == |words|
    ensures forall i | 0 <= i < |words| :: Initials(Join(words, " "))[i] == UpperChar(words[i][0])
  {
    SplitOnJoin(words, ' ');
    FirstsOfWords(words);
  }

  // ---------------------------------------------------------------------
  // Durations in minutes
  // ---------------------------------------------------------------------

  /** `formatDuration(minutes)`: "<m>min" under an hour; otherwise the hours,
      then the leftover minutes only when there are any. */
  function FormatDuration(minutes: nat): string {
    if minutes < 60 then NatToString(minutes) + "min"
    else
      var hours, mins := minutes / 60, minutes % 60;
      if mins > 0 then NatToString(hours) + "h " + NatToString(mins) + "min"
      else NatToString(hours) + "h"
  }

  /** The length of the run of decimal digits a text starts with. */
  function DigitRun(s: string): (n: nat)
    ensures n <= |s|
  {
    if s == [] || !IsDigit(s[0]) then 0 else 1 + DigitRun(s[1..])
  }

  lemma {:induction false} DigitRunOf(d: string, x: string)
    requires AllChars(d, IsDigit)
    requires x == [] || !IsDigit(x[0])
    ensures DigitRun(d + x) == |d|
  {
    if d == [] {
      assert d + x == x;
    } else {
      assert (d + x)[1..] == d[1..] + x;
      assert IsDigit(d[0]);
      DigitRunOf(d[1..], x);
    }
  }

  /** Reading a duration text back into minutes. */
  function ReadDuration(t: string): Option<nat> {
    var n := DigitRun(t);
    ReadUnits(DigitsValue(t[..n]), t[n..])
  }

  /** What follows the leading number: "min", "h", or "h " and minutes. */
  function ReadUnits(lead: nat, rest: string): Option<nat> {
    if rest == "min" then Some(lead)
    else if rest == "h" then Some(lead * 60)
    else if |rest| >= 2 && rest[..2] == "h " then ReadMinutes(lead, rest[2..])
    else None
  }

  function ReadMinutes(hours: nat, tail: string): Option<nat> {
    var k := DigitRun(tail);
    if tail[k..] == "min" then Some(hours * 60 + DigitsValue(tail[..k])) else None
  }

  /** Splitting a digit run off the front of a text. */
  lemma LeadDigits(d: string, x: string)
    requires AllChars(d, IsDigit) && |x| >= 1 && !IsDigit(x[0])
    ensures DigitRun(d + x) == |d| && (d + x)[..|d|] == d && (d + x)[|d|..] == x
  {
    DigitRunOf(d, x);
  }

  /** The duration text reads back as the same number of minutes, so no two
      durations share a text. */
  lemma ReadFormatDuration(minutes: nat)
    ensures ReadDuration(FormatDuration(minutes)) == Some(minutes)
  {
    var t := FormatDuration(minutes);
    if minutes < 60 {
      ReadMinutesOnly(t, NatToString(minutes));
    } else {
      var hours, mins := minutes / 60, minutes % 60;
      assert hours * 60 + mins == minutes;
      if mins > 0 {
        ReadHoursMinutes(t, NatToString(hours), NatToString(mins));
      } else {
        ReadHoursOnly(t, NatToString(hours));
      }
    }
  }

  lemma ReadLead(t: string, d: string, x: string, u: Option<nat>)
    requires t == d + x && AllChars(d, IsDigit) && |x| >= 1 && !IsDigit(x[0])
    requires ReadUnits(DigitsValue(d), x) == u
    ensures ReadDuration(t) == u
  {
    LeadDigits(d, x);
  }

  lemma ReadMinutesOnly(t: string, d: string)
    requires t == d + "min" && AllChars(d, IsDigit)
    ensures ReadDuration(t) == Some(DigitsValue(d))
  {
    LeadDigits(d, "min");
  }

  lemma ReadHoursOnly(t: string, d: string)
    requires t == d + "h" && AllChars(d, IsDigit)
    ensures ReadDuration(t) == Some(DigitsValue(d) * 60)
  {
    LeadDigits(d, "h");
  }

  lemma ReadHoursMinutes(t: string, d: string, e: string)
    requires t == d + "h " + e + "min" && AllChars(d, IsDigit) && AllChars(e, IsDigit)
    ensures ReadDuration(t) == Some(DigitsValue(d) * 60 + DigitsValue(e))
  {
    var rest := "h " + e + "min";
    assert t == d + rest;
    ReadRest(t, d, rest, e);
  }

  lemma ReadRest(t: string, d: string, rest: string, e: string)
    requires t == d + rest && rest == "h " + e + "min"
    requires AllChars(d, IsDigit) && AllChars(e, IsDigit)
    ensures ReadDuration(t) == Some(DigitsValue(d) * 60 + DigitsValue(e))
  {
    UnitsHoursMinutes(DigitsValue(d), rest, e);
    ReadLead(t, d, rest, Some(DigitsValue(d) * 60 + DigitsValue(e)));
  }

  lemma UnitsHoursMinutes(hours: nat, rest: string, e: string)
    requires rest == "h " + e + "min" && AllChars(e, IsDigit)
    ensures ReadUnits(hours, rest) == Some(hours * 60 + DigitsValue(e))
  {
    assert rest[..2] == "h " && rest[2..] == e + "min";
    assert rest != "min" && rest != "h";
    LeadDigits(e, "min");
  }

  lemma FormatDurationInjective(a: nat, b: nat)
    requires FormatDuration(a) == FormatDuration(b)
    ensures a == b
  {
    ReadFormatDuration(a);
    ReadFormatDuration(b);
  }

  // ---------------------------------------------------------------------
  // Clock times
  // ---------------------------------------------------------------------

  /** `formatTime(seconds)`: whole minutes, not wrapped at the hour, and the
      leftover seconds, each padded to two digits. */
  function FormatTime(seconds: nat): string {
    Pad2(seconds / 60) + ":" + Pad2(seconds % 60)
  }

  /** A clock time reads back as the same number of seconds. */
  lemma FormatTimeParse(seconds: nat)
    ensures Formatters.ParseClock(FormatTime(seconds)) == Some(seconds)
  {
    var mins, secs := seconds / 60, seconds % 60;
    var t := FormatTime(seconds);
    assert t == Pad2(mins) + ":" + Pad2(secs);
    ClockOfFields(t, Pad2(mins), Pad2(secs), mins, secs, seconds);
  }

  lemma ClockOfFields(t: string, m: string, s: string, a: nat, b: nat, total: nat)
    requires t == m + ":" + s && AllChars(m, IsDigit) && AllChars(s, IsDigit)
    requires DigitsValue(m) == a && DigitsValue(s) == b && a * 60 + b == total
    ensures Formatters.ParseClock(t) == Some(total)
  {
    Formatters.SplitTwo(m, s);
    Formatters.ParseFields(m + ":" + s, [m, s]);
    Formatters.FieldsTwoValues(m, s, a, b);
  }

  // ---------------------------------------------------------------------
  // Dashboard statistics
  // ---------------------------------------------------------------------

  datatype League = Bronze | Silver | Gold | Platinum | Diamond

  /** The league of a level: Silver from level 5, Gold from 10, Platinum
      from 15, Diamond from 20. */
  function LeagueOf(level: int): League {
    if level >= 20 then Diamond
    else if level >= 15 then Platinum
    else if level >= 10 then Gold
    else if level >= 5 then Silver
    else Bronze
  }

  /** The leagues in ascending order. */
  function Rank(l: League): nat {
    match l
    case Bronze => 0
    case Silver => 1
    case Gold => 2
    case Platinum => 3
    case Diamond => 4
  }

  /** Bronze below level 5, Silver for 5-9, Gold for 10-14, Platinum for
      15-19, Diamond from 20. */
  lemma LeagueBands(level: int)
    ensures LeagueOf(level) == Bronze <==> level < 5
    ensures LeagueOf(level) == Silver <==> 5 <= level < 10
    ensures LeagueOf(level) == Gold <==> 10 <= level < 15
    ensures LeagueOf(level) == Platinum <==> 15 <= level < 20
    ensures LeagueOf(level) == Diamond <==> 20 <= level
  {
  }

  lemma LeagueMonotone(a: int, b: int)
    requires a <= b
    ensures Rank(LeagueOf(a)) <= Rank(LeagueOf(b))
  {
  }

  datatype Profile = Profile(fullName: string, avatarUrl: Option<string>, totalXp: Option<int>, currentStreak: Option<int>)

  datatype UserStats = UserStats(username: string, avatarUrl: string, level: int, xp: int, streak: int, league: League)

  /** `transformToUserStats`: a missing avatar becomes "", missing XP and
      streak become 0, and the level and league follow from the XP. */
  function ToUserStats(p: Profile): (s: UserStats)
    ensures s.xp == p.totalXp.GetOr(0) && s.streak == p.currentStreak.GetOr(0)
    ensures (s.level - 1) * 500 <= s.xp < s.level * 500
    ensures s.xp >= 0 ==> s.level >= 1
    ensures s.league == LeagueOf(s.level)
  {
    var xp := p.totalXp.GetOr(0);
    var level := Levels.CalculateLevel(xp);
    UserStats(p.fullName, p.avatarUrl.GetOr(""), level, xp, p.currentStreak.GetOr(0), LeagueOf(level))
  }

  /** The league never drops as XP grows. */
  lemma StatsLeagueMonotone(p: Profile, q: Profile)
    requires p.totalXp.GetOr(0) <= q.totalXp.GetOr(0)
    ensures Rank(ToUserStats(p).league) <= Rank(ToUserStats(q).league)
  {
    Levels.LevelMonotone(p.totalXp.GetOr(0), q.totalXp.GetOr(0));
    LeagueMonotone(ToUserStats(p).level, ToUserStats(q).level);
  }

  // ---------------------------------------------------------------------
  // The next lesson to open
  // ---------------------------------------------------------------------

  datatype CourseUnit = CourseUnit(id: string, lessons: seq<string>)

  datatype Target = LessonTarget(id: string) | QuizTarget(id: string)

  /** The first lesson not yet completed. */
  function FirstOpen(lessons: seq<string>, done: seq<string>): (r: Option<string>)
    ensures r.None? <==> forall i | 0 <= i < |lessons| :: lessons[i] in done
    ensures r.Some? ==> r.value in lessons && r.value !in done
  {
    if lessons == [] then None
    else if lessons[0] !in done then Some(lessons[0])
    else
      var r := FirstOpen(lessons[1..], done);
      assert forall i | 1 <= i < |lessons| :: lessons[i] == lessons[1..][i - 1];
      r
  }

  /** `unitQuizMap.get(id)` is truthy. */
  predicate QuizMarked(quizMap: map<string, bool>, id: string) {
    id in quizMap && quizMap[id]
  }

  predicate AllDone(lessons: seq<string>, done: seq<string>) {
    forall i | 0 <= i < |lessons| :: lessons[i] in done
  }

  /** The loop of `findNextUncompletedLesson`: unit by unit, the first open
      lesson, then the unit's quiz when it is marked, every lesson of the
      unit is done and the quiz is not. */
  function Scan(units: seq<CourseUnit>, done: seq<string>, doneQuizzes: seq<string>, quizMap: map<string, bool>): Option<Target>
  {
    if units == [] then None
    else
      var u := units[0];
      match FirstOpen(u.lessons, done)
      case Some(l) => Some(LessonTarget(l))
      case None =>
        if QuizMarked(quizMap, u.id) && AllDone(u.lessons, done) && u.id !in doneQuizzes then Some(QuizTarget(u.id))
        else Scan(units[1..], done, doneQuizzes, quizMap)
  }

  /** `findNextUncompletedLesson`: the first pending step, or, when nothing
      is pending, the first lesson of the first unit, if there is one. */
  function NextUncompleted(units: seq<CourseUnit>, done: seq<string>, doneQuizzes: seq<string>, quizMap: map<string, bool>): (r: Option<Target>)
    ensures Scan(units, done, doneQuizzes, quizMap).Some? ==> r == Scan(units, done, doneQuizzes, quizMap)
    ensures r.None? <==> Scan(units, done, doneQuizzes, quizMap).None? && (units == [] || units[0].lessons == [])
  {
    match Scan(units, done, doneQuizzes, quizMap)
    case Some(t) => Some(t)
    case None =>
      if units != [] && units[0].lessons != [] then Some(LessonTarget(units[0].lessons[0])) else None
  }

  // The reference: the course as one list of steps, the first pending one.

  function LessonSteps(lessons: seq<string>): (r: seq<Target>)
    ensures |r| == |lessons| && forall i | 0 <= i < |r| :: r[i] == LessonTarget(lessons[i])
  {
    if lessons == [] then [] else [LessonTarget(lessons[0])] + LessonSteps(lessons[1..])
  }

  /** A unit's steps: its lessons in order, then its quiz when it has one. */
  function UnitSteps(u: CourseUnit, quizMap: map<string, bool>): seq<Target> {
    LessonSteps(u.lessons) + (if QuizMarked(quizMap, u.id) then [QuizTarget(u.id)] else [])
  }

  function Steps(units: seq<CourseUnit>, quizMap: map<string, bool>): seq<Target> {
    if units == [] then [] else UnitSteps(units[0], quizMap) + Steps(units[1..], quizMap)
  }

  predicate Pending(t: Target, done: seq<string>, doneQuizzes: seq<string>) {
    match t
    case LessonTarget(id) => id !in done
    case QuizTarget(id) => id !in doneQuizzes
  }

  function FirstPending(steps: seq<Target>, done: seq<string>, doneQuizzes: seq<string>): (r: Option<Target>)
    ensures r.None? <==> forall i | 0 <= i < |steps| :: !Pending(steps[i], done, doneQuizzes)
  {
    if steps == [] then None
    else if Pending(steps[0], done, doneQuizzes) then Some(steps[0])
    else
      var r := FirstPending(steps[1..], done, doneQuizzes);
      assert forall i | 1 <= i < |steps| :: steps[i] == steps[1..][i - 1];
      r
  }

  lemma {:induction false} FirstPendingAppend(a: seq<Target>, b: seq<Target>, done: seq<string>, doneQuizzes: seq<string>)
    ensures FirstPending(a + b, done, doneQuizzes)
      == (if FirstPending(a, done, doneQuizzes).Some? then FirstPending(a, done, doneQuizzes) else FirstPending(b, done, doneQuizzes))
  {
    if a == [] {
      assert a + b == b;
    } else {
      assert (a + b)[1..] == a[1..] + b;
      FirstPendingAppend(a[1..], b, done, doneQuizzes);
    }
  }

  lemma {:induction false} FirstPendingLessons(lessons: seq<string>, done: seq<string>, doneQuizzes: seq<string>)
    ensures FirstPending(LessonSteps(lessons), done, doneQuizzes)
      == (match FirstOpen(lessons, done) case Some(l) => Some(LessonTarget(l)) case None => None)
  {
    if lessons != [] {
      assert LessonSteps(lessons)[1..] == LessonSteps(lessons[1..]);
      FirstPendingLessons(lessons[1..], done, doneQuizzes);
    }
  }

  lemma FirstPendingQuiz(id: string, done: seq<string>, doneQuizzes: seq<string>)
    ensures FirstPending([QuizTarget(id)], done, doneQuizzes) == if id !in doneQuizzes then Some(QuizTarget(id)) else None
  {
    assert [QuizTarget(id)][1..] == [];
  }

  /** The search returns exactly the first pending step of the course, in
      unit order and, within a unit, lessons before the unit's quiz. */
  lemma {:induction false} ScanIsFirstPending(units: seq<CourseUnit>, done: seq<string>, doneQuizzes: seq<string>, quizMap: map<string, bool>)
    ensures Scan(units, done, doneQuizzes, quizMap) == FirstPending(Steps(units, quizMap), done, doneQuizzes)
  {
    if units != [] {
      var u := units[0];
      var quiz: seq<Target> := if QuizMarked(quizMap, u.id) then [QuizTarget(u.id)] else [];
      ScanIsFirstPending(units[1..], done, doneQuizzes, quizMap);
      FirstPendingAppend(UnitSteps(u, quizMap), Steps(units[1..], quizMap), done, doneQuizzes);
      FirstPendingAppend(LessonSteps(u.lessons), quiz, done, doneQuizzes);
      FirstPendingLessons(u.lessons, done, doneQuizzes);
      FirstPendingQuiz(u.id, done, doneQuizzes);
      assert FirstPending([], done, doneQuizzes) == None;
    }
  }
}
