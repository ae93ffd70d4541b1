/**
 * Display formatting for durations, course levels, counts, truncated text and
 * streak messages. Numbers are the whole numbers the callers pass; their
 * decimal rendering is `Text.NatToString` / `Text.IntToString`.
 */
module Formatters {
  import opened Wrappers
  import opened Text

  // -----------------------------------------------------------------------
  // Durations given in seconds
  // -----------------------------------------------------------------------

  /** Whole hours, minutes within the hour and seconds within the minute. */
  function HoursOf(seconds: nat): nat {
    seconds / 3600
  }

  function MinutesOf(seconds: nat): (r: nat)
    ensures r < 60
  {
    (seconds % 3600) / 60
  }

  function SecondsOf(seconds: nat): (r: nat)
    ensures r < 60
  {
    seconds % 60
  }

  /** The three parts add back up to the duration, and they are the only
      split with minutes and seconds below 60. */
  lemma ClockSplit(seconds: nat)
    ensures HoursOf(seconds) * 3600 + MinutesOf(seconds) * 60 + SecondsOf(seconds) == seconds
    ensures MinutesOf(seconds) < 60 && SecondsOf(seconds) < 60
  {
  }

  lemma ClockUnique(seconds: nat, h: nat, m: nat, s: nat)
    requires h * 3600 + m * 60 + s == seconds && m < 60 && s < 60
    ensures HoursOf(seconds) == h && MinutesOf(seconds) == m && SecondsOf(seconds) == s
  {
    DivMod3600(h, m * 60 + s);
    DivMod60(m, s);
    DivMod60(h * 60 + m, s);
  }

  /** Division with remainder by 3600 and by 60 is unique. */
  lemma DivMod3600(q: nat, r: nat)
    requires r < 3600
    ensures (q * 3600 + r) / 3600 == q && (q * 3600 + r) % 3600 == r
  {
  }

  lemma DivMod60(q: nat, r: nat)
    requires r < 60
    ensures (q * 60 + r) / 60 == q && (q * 60 + r) % 60 == r
  {
  }

  datatype Unit = Hours | Minutes | Seconds {
    function Word(): string {
      match this
      case Hours => "цаг"
      case Minutes => "минут"
      case Seconds => "секунд"
    }

    function Weight(): nat {
      match this
      case Hours => 3600
      case Minutes => 60
      case Seconds => 1
    }
  }

  /** `formatDuration`: hours and minutes from one hour on (seconds are then
      dropped), minutes and seconds below it, zero parts left out except a
      lone "0 секунд". */
  function FormatDuration(seconds: nat): string {
    var hours, minutes, secs := HoursOf(seconds), MinutesOf(seconds), SecondsOf(seconds);
    if hours > 0 then
      if minutes > 0 then NatToString(hours) + " " + Hours.Word() + " " + NatToString(minutes) + " " + Minutes.Word()
      else NatToString(hours) + " " + Hours.Word()
    else if minutes > 0 then
      if secs > 0 then NatToString(minutes) + " " + Minutes.Word() + " " + NatToString(secs) + " " + Seconds.Word()
      else NatToString(minutes) + " " + Minutes.Word()
    else NatToString(secs) + " " + Seconds.Word()
  }

  /** The parts the long format shows, as amounts with their units. */
  function Shown(seconds: nat): (r: seq<(nat, Unit)>)
    ensures 1 <= |r| <= 2
  {
    var h, m, s := HoursOf(seconds), MinutesOf(seconds), SecondsOf(seconds);
    if h > 0 then [(h, Hours)] + (if m > 0 then [(m, Minutes)] else [])
    else if m > 0 then [(m, Minutes)] + (if s > 0 then [(s, Seconds)] else [])
    else [(s, Seconds)]
  }

  function ShowPart(p: (nat, Unit)): string {
    NatToString(p.0) + " " + p.1.Word()
  }

  /** Each part written as "<amount> <unit>". */
  function ShowParts(ps: seq<(nat, Unit)>): (r: seq<string>)
    ensures |r| == |ps|
    ensures forall i | 0 <= i < |ps| :: r[i] == ShowPart(ps[i])
  {
    if ps == [] then [] else [ShowPart(ps[0])] + ShowParts(ps[1..])
  }

  /** The number of seconds a list of parts stands for. */
  function Total(ps: seq<(nat, Unit)>): nat {
    if ps == [] then 0 else ps[0].0 * ps[0].1.Weight() + Total(ps[1..])
  }

  lemma TotalOne(a: (nat, Unit))
    ensures Total([a]) == a.0 * a.1.Weight()
  {
    assert [a][1..] == [];
  }

  lemma TotalTwo(a: (nat, Unit), b: (nat, Unit))
    ensures Total([a, b]) == a.0 * a.1.Weight() + b.0 * b.1.Weight()
  {
    assert [a, b][1..] == [b];
    TotalOne(b);
  }

  /** The long format is the shown parts, each "<amount> <unit>", separated by
      one space. */
  lemma FormatDurationParts(seconds: nat)
    ensures FormatDuration(seconds) == Join(ShowParts(Shown(seconds)), " ")
  {
    var ps := Shown(seconds);
    var xs := ShowParts(ps);
    if |ps| == 2 {
      assert xs == [ShowPart(ps[0]), ShowPart(ps[1])];
      JoinShownTwo(NatToString(ps[0].0), ps[0].1.Word(), NatToString(ps[1].0), ps[1].1.Word());
    } else {
      assert xs == [ShowPart(ps[0])];
    }
  }

  lemma JoinShownTwo(x: string, u: string, y: string, v: string)
    ensures Join([x + " " + u, y + " " + v], " ") == x + " " + u + " " + y + " " + v
  {
    JoinTwo(x + " " + u, y + " " + v, " ");
  }

  /** What the long format shows never overstates the duration, is exact
      below one hour, and from one hour on leaves out less than a minute;
      every shown amount is non-zero unless the duration is zero. */
  lemma ShownValue(seconds: nat)
    ensures var ps := Shown(seconds);
      && Total(ps) <= seconds < Total(ps) + 60
      && (seconds < 3600 ==> Total(ps) == seconds)
      && (seconds >= 3600 ==> forall i | 0 <= i < |ps| :: ps[i].1 != Seconds)
      && (seconds > 0 ==> forall i | 0 <= i < |ps| :: ps[i].0 > 0)
  {
    var h, m, s := HoursOf(seconds), MinutesOf(seconds), SecondsOf(seconds);
    ClockSplit(seconds);
    if h > 0 {
      if m > 0 {
        TotalTwo((h, Hours), (m, Minutes));
      } else {
        TotalOne((h, Hours));
      }
    } else if m > 0 {
      if s > 0 {
        TotalTwo((m, Minutes), (s, Seconds));
      } else {
        TotalOne((m, Minutes));
      }
    } else {
      TotalOne((s, Seconds));
    }
  }

  /** `formatDurationShort`: MM:SS below one hour, HH:MM:SS from it on, every
      field at least two digits. */
  function FormatDurationShort(seconds: nat): string {
    var hours, minutes, secs := HoursOf(seconds), MinutesOf(seconds), SecondsOf(seconds);
    if hours > 0 then Pad2(hours) + ":" + Pad2(minutes) + ":" + Pad2(secs)
    else Pad2(minutes) + ":" + Pad2(secs)
  }

  /** Below one hour the short format is exactly "MM:SS". */
  lemma ShortUnderHour(seconds: nat)
    requires seconds < 3600
    ensures var r := FormatDurationShort(seconds);
      |r| == 5 && r[2] == ':' && AllChars(r[..2], IsDigit) && AllChars(r[3..], IsDigit)
  {
    ClockSplit(seconds);
    var a, b := Pad2(MinutesOf(seconds)), Pad2(SecondsOf(seconds));
    assert |a| == 2 && |b| == 2;
    var r := a + ":" + b;
    assert r[..2] == a && r[3..] == b;
  }

  /** Reading a clock text back: two or three colon-separated decimal fields. */
  function ParseClock(t: string): Option<nat> {
    ClockFields(SplitOn(t, ':'))
  }

  function ClockFields(fs: seq<string>): Option<nat> {
    if |fs| == 2 && FieldValue(fs[0]).Some? && FieldValue(fs[1]).Some? then
      Some(FieldValue(fs[0]).value * 60 + FieldValue(fs[1]).value)
    else if |fs| == 3 && FieldValue(fs[0]).Some? && FieldValue(fs[1]).Some? && FieldValue(fs[2]).Some? then
      Some(FieldValue(fs[0]).value * 3600 + FieldValue(fs[1]).value * 60 + FieldValue(fs[2]).value)
    else None
  }

  /** One decimal field, if it is all digits. */
  function FieldValue(f: string): Option<nat> {
    if AllChars(f, IsDigit) then Some(DigitsValue(f)) else None
  }

  /** Digit fields hold no colon. */
  lemma DigitsNoColon(f: string)
    requires AllChars(f, IsDigit)
    ensures ':' !in f
  {
    forall k | 0 <= k < |f|
      ensures f[k] != ':'
    {
      assert IsDigit(f[k]);
    }
  }

  /** Parsing is reading the fields the text splits into. */
  lemma ParseFields(t: string, fs: seq<string>)
    requires SplitOn(t, ':') == fs
    ensures ParseClock(t) == ClockFields(fs)
  {
  }

  lemma FieldsTwo(a: string, b: string)
    requires AllChars(a, IsDigit) && AllChars(b, IsDigit)
    ensures ClockFields([a, b]) == Some(DigitsValue(a) * 60 + DigitsValue(b))
  {
  }

  lemma FieldsThree(a: string, b: string, c: string)
    requires AllChars(a, IsDigit) && AllChars(b, IsDigit) && AllChars(c, IsDigit)
    ensures ClockFields([a, b, c]) == Some(DigitsValue(a) * 3600 + DigitsValue(b) * 60 + DigitsValue(c))
  {
    var fs := [a, b, c];
    assert fs[0] == a && fs[1] == b && fs[2] == c;
    var x, y, z := FieldValue(a), FieldValue(b), FieldValue(c);
    assert x == Some(DigitsValue(a));
    assert y == Some(DigitsValue(b));
    assert z == Some(DigitsValue(c));
  }

  lemma SplitTwo(a: string, b: string)
    requires AllChars(a, IsDigit) && AllChars(b, IsDigit)
    ensures SplitOn(a + ":" + b, ':') == [a, b]
  {
    DigitsNoColon(a);
    DigitsNoColon(b);
    JoinTwo(a, b, ":");
    SplitOnJoin([a, b], ':');
  }

  lemma SplitThree(a: string, b: string, c: string)
    requires AllChars(a, IsDigit) && AllChars(b, IsDigit) && AllChars(c, IsDigit)
    ensures SplitOn(a + ":" + b + ":" + c, ':') == [a, b, c]
  {
    DigitsNoColon(a);
    DigitsNoColon(b);
    DigitsNoColon(c);
    JoinThree(a, b, c, ":");
    SplitOnJoin([a, b, c], ':');
  }

  /** The fields of the short format, most significant first. */
  function ShortFields(seconds: nat): seq<string> {
    FieldsOf(HoursOf(seconds), MinutesOf(seconds), SecondsOf(seconds))
  }

  function FieldsOf(hours: nat, minutes: nat, secs: nat): seq<string> {
    if hours > 0 then [Pad2(hours), Pad2(minutes), Pad2(secs)] else [Pad2(minutes), Pad2(secs)]
  }

  /** The short format is its fields joined by colons. */
  lemma ShortJoin(seconds: nat)
    ensures FormatDurationShort(seconds) == Join(ShortFields(seconds), ":")
  {
    var h, m, s := HoursOf(seconds), MinutesOf(seconds), SecondsOf(seconds);
    if h > 0 {
      JoinThree(Pad2(h), Pad2(m), Pad2(s), ":");
    } else {
      JoinTwo(Pad2(m), Pad2(s), ":");
    }
  }

  /** Splitting the short format at its colons gives the fields back. */
  lemma ShortSplit(seconds: nat)
    ensures SplitOn(FormatDurationShort(seconds), ':') == ShortFields(seconds)
  {
    var h, m, s := HoursOf(seconds), MinutesOf(seconds), SecondsOf(seconds);
    if h > 0 {
      SplitThree(Pad2(h), Pad2(m), Pad2(s));
    } else {
      SplitTwo(Pad2(m), Pad2(s));
    }
  }

  /** The fields read back as the duration. */
  lemma ShortRead(seconds: nat)
    ensures ClockFields(ShortFields(seconds)) == Some(seconds)
  {
    ClockSplit(seconds);
    FieldsRead(HoursOf(seconds), MinutesOf(seconds), SecondsOf(seconds));
  }

  lemma FieldsRead(h: nat, m: nat, s: nat)
    ensures ClockFields(FieldsOf(h, m, s)) == Some(h * 3600 + m * 60 + s)
  {
    if h > 0 {
      FieldsReadThree(h, m, s);
    } else {
      FieldsReadTwo(m, s);
    }
  }

  lemma FieldsReadThree(h: nat, m: nat, s: nat)
    requires h > 0
    ensures ClockFields(FieldsOf(h, m, s)) == Some(h * 3600 + m * 60 + s)
  {
    var a, b, c := Pad2(h), Pad2(m), Pad2(s);
    assert FieldsOf(h, m, s) == [a, b, c];
    FieldsThreeValues(a, b, c, h, m, s);
  }

  lemma FieldsReadTwo(m: nat, s: nat)
    ensures ClockFields(FieldsOf(0, m, s)) == Some(m * 60 + s)
  {
    var b, c := Pad2(m), Pad2(s);
    assert FieldsOf(0, m, s) == [b, c];
    FieldsTwoValues(b, c, m, s);
  }

  lemma FieldsThreeValues(a: string, b: string, c: string, h: nat, m: nat, s: nat)
    requires AllChars(a, IsDigit) && AllChars(b, IsDigit) && AllChars(c, IsDigit)
    requires DigitsValue(a) == h && DigitsValue(b) == m && DigitsValue(c) == s
    ensures ClockFields([a, b, c]) == Some(h * 3600 + m * 60 + s)
  {
    FieldsThree(a, b, c);
  }

  lemma FieldsTwoValues(b: string, c: string, m: nat, s: nat)
    requires AllChars(b, IsDigit) && AllChars(c, IsDigit)
    requires DigitsValue(b) == m && DigitsValue(c) == s
    ensures ClockFields([b, c]) == Some(m * 60 + s)
  {
    FieldsTwo(b, c);
  }

  /** The short format reads back as the same number of seconds. */
  lemma FormatDurationShortParse(seconds: nat)
    ensures ParseClock(FormatDurationShort(seconds)) == Some(seconds)
  {
    ShortSplit(seconds);
    ShortRead(seconds);
    ParseFields(FormatDurationShort(seconds), ShortFields(seconds));
  }

  // -----------------------------------------------------------------------
  // Course levels
  // -----------------------------------------------------------------------

  const Levels: seq<string> := ["Beginner", "Intermediate", "Advanced"]
  const LevelNames: seq<string> := ["Анхан шат", "Дунд шат", "Ахисан шат"]

  /** `formatCourseLevel`: the Mongolian name of a level; any other text is
      passed through. */
  function FormatCourseLevel(level: string): string {
    if level == "Beginner" then "Анхан шат"
    else if level == "Intermediate" then "Дунд шат"
    else if level == "Advanced" then "Ахисан шат"
    else level
  }

  /** `parseCourseLevelToDb`: the database value for a Mongolian name, or none. */
  function ParseCourseLevel(name: string): (r: Option<string>)
    ensures r.Some? <==> name in LevelNames
    ensures r.Some? ==> r.value in Levels
  {
    if name == "Анхан шат" then Some("Beginner")
    else if name == "Дунд шат" then Some("Intermediate")
    else if name == "Ахисан шат" then Some("Advanced")
    else None
  }

  /** Formatting then parsing gives each level back, and nothing else parses. */
  lemma CourseLevelRoundTrip(level: string)
    ensures level in Levels ==> ParseCourseLevel(FormatCourseLevel(level)) == Some(level)
    ensures level !in Levels && level !in LevelNames ==> ParseCourseLevel(FormatCourseLevel(level)).None?
  {
  }

  // -----------------------------------------------------------------------
  // Counts
  // -----------------------------------------------------------------------

  /** `pluralize`: "<count> <word>", with the suffix unless the count is 1. */
  function Pluralize(count: int, singular: string, suffix: string := "ууд"): string {
    if count == 1 then IntToString(count) + " " + singular
    else IntToString(count) + " " + singular + suffix
  }

  /** The count is written first and can be read back from the text: it is
      the digits before the first space; the suffix is added exactly when
      the count is not 1. */
  lemma PluralizeReads(count: nat, singular: string, suffix: string)
    ensures var r := Pluralize(count, singular, suffix);
      var d := NatToString(count);
      && |d| < |r| && r[..|d|] == d && r[|d|] == ' ' && DigitsValue(r[..|d|]) == count
      && r[|d| + 1..] == singular + (if count == 1 then "" else suffix)
  {
    var d := NatToString(count);
    var tail := singular + (if count == 1 then "" else suffix);
    assert IntToString(count) == d;
    if count == 1 {
      assert tail == singular;
    } else {
      assert d + " " + singular + suffix == d + " " + tail;
    }
    Prefixed(d, tail);
  }

  /** A word followed by a space and a tail splits back into the two. */
  lemma Prefixed(d: string, tail: string)
    ensures var r := d + " " + tail;
      |d| < |r| && r[..|d|] == d && r[|d|] == ' ' && r[|d| + 1..] == tail
  {
  }

  const CourseWord := "хичээл"
  const StudentWord := "суралцагч"

  function FormatCourseCount(count: int): string {
    Pluralize(count, CourseWord, "")
  }

  function FormatLessonCount(count: int): string {
    Pluralize(count, CourseWord, "")
  }

  function FormatStudentCount(count: int): string {
    Pluralize(count, StudentWord, "")
  }

  /** With an empty suffix the word never changes: "<n> <word>" for every n. */
  lemma PluralizeNoSuffix(count: int, word: string)
    ensures Pluralize(count, word, "") == IntToString(count) + " " + word
  {
    assert word + "" == word;
  }

  /** The three count formats are "<n> <word>" for every n, one and all. */
  lemma CountFormats(count: int)
    ensures FormatCourseCount(count) == IntToString(count) + " " + CourseWord
    ensures FormatLessonCount(count) == IntToString(count) + " " + CourseWord
    ensures FormatStudentCount(count) == IntToString(count) + " " + StudentWord
  {
    PluralizeNoSuffix(count, CourseWord);
    PluralizeNoSuffix(count, StudentWord);
  }

  // -----------------------------------------------------------------------
  // Truncation
  // -----------------------------------------------------------------------

  /** `text.slice(0, n)` on the UTF-16 units of a JavaScript string: a
      negative end counts from the back. */
  function SliceTo<T>(text: seq<T>, n: int): (r: seq<T>)
    ensures r <= text
    ensures n >= 0 ==> |r| == if n <= |text| then n else |text|
    ensures n < 0 ==> |r| == if |text| + n >= 0 then |text| + n else 0
  {
    if n >= 0 then (if n <= |text| then text[..n] else text)
    else if |text| + n >= 0 then text[..|text| + n]
    else []
  }

  /** "..." as UTF-16 units. */
  const Ellipsis: seq<CodeUnit> := [46, 46, 46]

  /** `truncateText`: lengths and slices count UTF-16 units. Text no longer
      than the limit is returned as it is; longer text keeps its first
      `maxLength` units and gains "...". */
  function Truncate(text: seq<CodeUnit>, maxLength: int): (r: seq<CodeUnit>)
    ensures |text| <= maxLength ==> r == text
    ensures maxLength >= 0 && |text| > maxLength ==>
      |r| == maxLength + 3 && r[..maxLength] == text[..maxLength] && r[maxLength..] == Ellipsis
  {
    if |text| <= maxLength then text else SliceTo(text, maxLength) + Ellipsis
  }

  /** Truncating twice with the same non-negative limit is truncating once. */
  lemma TruncateTwice(text: seq<CodeUnit>, maxLength: nat)
    ensures Truncate(Truncate(text, maxLength), maxLength) == Truncate(text, maxLength)
  {
    if |text| > maxLength {
      var r := Truncate(text, maxLength);
      assert r[..maxLength] == text[..maxLength];
    }
  }

  /** For text of the Basic Multilingual Plane the limit counts characters:
      the result is the encoding of the first `maxLength` characters and
      "...". */
  lemma TruncateBmp(s: string, maxLength: nat)
    requires InBmp(s)
    ensures |s| <= maxLength ==> Truncate(Utf16(s), maxLength) == Utf16(s)
    ensures |s| > maxLength ==>
      |Truncate(Utf16(s), maxLength)| == maxLength + 3
      && forall i | 0 <= i < maxLength :: Truncate(Utf16(s), maxLength)[i] as int == s[i] as int
  {
    Utf16Bmp(s);
  }

  /** A character outside the plane counts twice: two such characters are
      over a limit of 3, and the cut falls between the halves of the second. */
  lemma TruncateAstral(c: char, d: char)
    requires c as int >= 0x1_0000 && d as int >= 0x1_0000
    ensures |Utf16([c, d])| == 4
    ensures Truncate(Utf16([c, d]), 3) == Utf16([c, d])[..3] + Ellipsis
  {
    assert [c, d][..1] == [c];
    Utf16Astral(c);
  }

  // -----------------------------------------------------------------------
  // Streaks
  // -----------------------------------------------------------------------

  const NoStreak := "Танд хараахан \U{63}трик байхгүй байна"
  const StreakSuffix := " өдрийн \U{63}трик"

  /** `formatStreakDays`: a fixed text for 0 and for 1, the count otherwise. */
  function FormatStreakDays(days: int): string {
    if days == 0 then NoStreak
    else if days == 1 then "1" + StreakSuffix
    else IntToString(days) + StreakSuffix
  }

  /** The fixed text for one day is what the general form gives for 1, and
      different non-negative day counts never share a message. */
  lemma StreakDistinct(a: nat, b: nat)
    requires a != b
    ensures FormatStreakDays(1) == IntToString(1) + StreakSuffix
    ensures FormatStreakDays(a) != FormatStreakDays(b)
  {
    if a != 0 && b != 0 {
      SuffixDistinct(IntToString(a), IntToString(b), StreakSuffix);
    } else if a == 0 {
      assert FormatStreakDays(b)[0] != NoStreak[0];
    } else {
      assert FormatStreakDays(a)[0] != NoStreak[0];
    }
  }

  /** Different texts stay different with the same text appended. */
  lemma SuffixDistinct(x: string, y: string, s: string)
    requires x != y
    ensures x + s != y + s
  {
    if |x| == |y| {
      var k :| 0 <= k < |x| && x[k] != y[k];
      assert (x + s)[k] != (y + s)[k];
    }
  }
}
