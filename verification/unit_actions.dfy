/**
 * The pure parts of the admin unit actions: the slug made from a unit
 * title, the de-duplicated content suggestions, the per-course unit
 * summary and the lesson order of a single unit. The database queries
 * around them become parameters.
 */
module UnitActions {
  import opened Wrappers
  import Text
  import Lists
  import Sorting

  // ---------------------------------------------------------------------
  // Slugs
  // ---------------------------------------------------------------------

  /** The regex class `\w` without the `u` flag. */
  predicate IsWordChar(c: char) {
    ('a' <= c <= 'z') || ('A' <= c <= 'Z') || ('0' <= c <= '9') || c == '_'
  }

  /** `[\w\s-]`: what survives the first replacement. */
  predicate IsKept(c: char) {
    IsWordChar(c) || Text.IsJsWhitespace(c) || c == '-'
  }

  /** `[\s_-]`: what the second replacement collapses. */
  predicate IsSeparator(c: char) {
    Text.IsJsWhitespace(c) || c == '_' || c == '-'
  }

  predicate IsAlnum(c: char) {
    ('a' <= c <= 'z') || ('0' <= c <= '9')
  }

  predicate IsDash(c: char) {
    c == '-'
  }

  predicate IsSlugChar(c: char) {
    IsAlnum(c) || c == '-'
  }

  predicate NoDoubleDash(s: string) {
    forall i | 0 <= i < |s| - 1 :: s[i] != '-' || s[i + 1] != '-'
  }

  /** What a slug looks like: lower-case letters, digits and single dashes
      between them. */
  predicate IsSlug(s: string) {
    Text.AllChars(s, IsSlugChar) && NoDoubleDash(s) && Text.IsStripped(s, IsDash)
  }

  /** `.replace(/[\s_-]+/g, "-")`, scanning left to right; `inRun` says the
      previous character belonged to a run already replaced. */
  function Collapse(s: string, inRun: bool): (r: string)
    ensures |r| <= |s|
  {
    if s == [] then []
    else if IsSeparator(s[0]) then
      if inRun then Collapse(s[1..], true) else "-" + Collapse(s[1..], true)
    else [s[0]] + Collapse(s[1..], false)
  }

  /** Collapsing leaves single dashes only, none right after a run, and
      letters, digits and dashes when that is all it was given besides
      separators. */
  lemma {:induction false} CollapseShape(s: string, inRun: bool)
    ensures NoDoubleDash(Collapse(s, inRun))
    ensures inRun && Collapse(s, inRun) != [] ==> Collapse(s, inRun)[0] != '-'
    ensures (forall i | 0 <= i < |s| :: IsSeparator(s[i]) || IsAlnum(s[i]))
            ==> Text.AllChars(Collapse(s, inRun), IsSlugChar)
  {
    if s != [] {
      var t := s[1..];
      var sep := IsSeparator(s[0]);
      var head := if !sep then [s[0]] else if inRun then [] else "-";
      var rest := Collapse(t, sep);
      CollapseShape(t, sep);
      assert Collapse(s, inRun) == head + rest;
      ShapeJoin(head, rest, sep);
      if forall i | 0 <= i < |s| :: IsSeparator(s[i]) || IsAlnum(s[i]) {
        assert forall i | 0 <= i < |t| :: t[i] == s[i + 1];
        assert Text.AllChars(head, IsSlugChar);
      }
    }
  }

  /** Gluing a head of at most one character to a collapsed rest. */
  lemma ShapeJoin(head: string, rest: string, sep: bool)
    requires |head| <= 1 && (head == "-" ==> sep)
    requires NoDoubleDash(rest) && (sep && rest != [] ==> rest[0] != '-')
    ensures NoDoubleDash(head + rest)
    ensures Text.AllChars(head, IsSlugChar) && Text.AllChars(rest, IsSlugChar)
            ==> Text.AllChars(head + rest, IsSlugChar)
  {
    var r := head + rest;
    assert forall i | |head| <= i < |r| :: r[i] == rest[i - |head|];
  }

  /** `toLowerCase` of one character, as far as a slug can tell: A-Z
      become a-z, U+0130 (capital I with dot above) becomes "i" followed by
      U+0307, and U+212A (Kelvin sign) becomes "k". These are the only
      characters whose lower case holds an ASCII letter or digit. Every
      other character is kept as it is: its real lower case is neither
      ASCII nor whitespace when it is not already, so `[^\w\s-]` removes
      it just the same. */
  function LowerChar(c: char): (r: string)
    ensures |r| >= 1
  {
    if c == '\U{0130}' then "i\U{0307}"
    else if c == '\U{212A}' then "k"
    else [Text.AsciiLower(c)]
  }

  /** The characters whose lower case contributes a letter or digit. */
  predicate LowersToAlnum(c: char) {
    IsAlnum(Text.AsciiLower(c)) || c == '\U{0130}' || c == '\U{212A}'
  }

  predicate NoAsciiUpper(s: string) {
    forall i | 0 <= i < |s| :: !('A' <= s[i] <= 'Z')
  }

  /** `title.toLowerCase()`, character by character. */
  function Lower(s: string): (r: string)
    ensures |r| >= |s|
  {
    if s == [] then []
    else
      var init := Lower(s[..|s| - 1]);
      var last := LowerChar(s[|s| - 1]);
      init + last
  }

  /** Lower-cased text holds no upper-case ASCII letter. */
  lemma {:induction false} LowerNoUpper(s: string)
    ensures NoAsciiUpper(Lower(s))
  {
    if s != [] {
      var init, last := Lower(s[..|s| - 1]), LowerChar(s[|s| - 1]);
      LowerNoUpper(s[..|s| - 1]);
      assert forall i | |init| <= i < |init + last| :: (init + last)[i] == last[i - |init|];
    }
  }

  /** Lower case changes nothing in text already without upper-case
      letters, U+0130 or U+212A. */
  lemma {:induction false} LowerUnchanged(s: string)
    requires forall i | 0 <= i < |s| :: !('A' <= s[i] <= 'Z') && s[i] != '\U{0130}' && s[i] != '\U{212A}'
    ensures Lower(s) == s
  {
    if s != [] {
      LowerUnchanged(s[..|s| - 1]);
      assert s == s[..|s| - 1] + [s[|s| - 1]];
    }
  }

  /** One character's lower case holds a letter or digit exactly when it
      lowers to one. */
  lemma LowerCharAlnum(c: char)
    ensures Lists.Filter(LowerChar(c), IsAlnum) == [] <==> !LowersToAlnum(c)
  {
    if c == '\U{0130}' {
      assert LowerChar(c) == ['i'] + ['\U{0307}'];
      Lists.FilterAppend(['i'], ['\U{0307}'], IsAlnum);
      Lists.FilterNone('\U{0307}', IsAlnum);
      Lists.FilterKeep('i', IsAlnum);
    } else if LowersToAlnum(c) {
      Lists.FilterKeep(LowerChar(c)[0], IsAlnum);
    } else {
      Lists.FilterNone(Text.AsciiLower(c), IsAlnum);
    }
  }

  /** The lower-cased text holds a letter or digit exactly when some
      character of the title lowers to one. */
  lemma {:induction false} LowerAlnum(s: string)
    ensures Lists.Filter(Lower(s), IsAlnum) == [] <==> forall i | 0 <= i < |s| :: !LowersToAlnum(s[i])
  {
    if s != [] {
      var init, c := s[..|s| - 1], s[|s| - 1];
      assert s == init + [c];
      LowerSnoc(init, c);
      Lists.FilterAppend(Lower(init), LowerChar(c), IsAlnum);
      LowerAlnum(init);
      LowerCharAlnum(c);
      assert forall i | 0 <= i < |init| :: s[i] == init[i];
    }
  }

  /** `generateSlug`: lower-case, drop everything outside `[\w\s-]`, turn
      each run of separators into one dash, trim dashes at both ends. */
  function Slug(title: string): (r: string)
    ensures IsSlug(r)
  {
    var lowered := Lower(title);
    var kept := Lists.Filter(lowered, IsKept);
    LowerNoUpper(title);
    LoweredKept(lowered, kept);
    var collapsed := Collapse(kept, false);
    CollapseShape(kept, false);
    var r := Text.Strip(collapsed, IsDash);
    StripKeepsShape(collapsed, r);
    r
  }

  lemma LoweredKept(lowered: string, kept: string)
    requires NoAsciiUpper(lowered)
    requires kept == Lists.Filter(lowered, IsKept)
    ensures forall i | 0 <= i < |kept| :: IsSeparator(kept[i]) || IsAlnum(kept[i])
  {
    Lists.FilterIn(lowered, IsKept);
    forall i | 0 <= i < |kept|
      ensures IsSeparator(kept[i]) || IsAlnum(kept[i])
    {
      assert IsKept(kept[i]);
      assert kept[i] in lowered;
      var j :| 0 <= j < |lowered| && lowered[j] == kept[i];
    }
  }

  /** Trimming dashes keeps the character set and the single dashes. */
  lemma StripKeepsShape(s: string, r: string)
    requires Text.AllChars(s, IsSlugChar) && NoDoubleDash(s)
    requires r == Text.Strip(s, IsDash)
    ensures IsSlug(r)
  {
    var k := Text.LeadingCount(s, IsDash);
    assert r == s[k..k + |r|];
    assert forall i | 0 <= i < |r| :: r[i] == s[k + i];
  }

  /** A slug collapses to itself. */
  lemma {:induction false} CollapseSlug(s: string, inRun: bool)
    requires Text.AllChars(s, IsSlugChar) && NoDoubleDash(s)
    requires inRun && s != [] ==> s[0] != '-'
    ensures Collapse(s, inRun) == s
  {
    if s != [] {
      var t := s[1..];
      SlugCharsTail(s);
      if s[0] == '-' {
        CollapseSlug(t, true);
        assert s == "-" + t;
      } else {
        CollapseSlug(t, false);
        assert s == [s[0]] + t;
      }
    }
  }

  lemma SlugCharsTail(s: string)
    requires s != [] && Text.AllChars(s, IsSlugChar) && NoDoubleDash(s)
    ensures Text.AllChars(s[1..], IsSlugChar) && NoDoubleDash(s[1..])
    ensures s[0] == '-' && |s| > 1 ==> s[1] != '-'
  {
    var t := s[1..];
    assert forall i | 0 <= i < |t| :: t[i] == s[i + 1];
  }

  /** `generateSlug` is idempotent: a slug is its own slug. */
  lemma SlugOfSlug(s: string)
    requires IsSlug(s)
    ensures Slug(s) == s
  {
    LowerUnchanged(s);
    Lists.FilterAll(s, IsKept);
    CollapseSlug(s, false);
    Text.StripOfStripped(s, IsDash);
  }

  lemma SlugIdempotent(title: string)
    ensures Slug(Slug(title)) == Slug(title)
  {
    SlugOfSlug(Slug(title));
  }

  /** Collapsing never touches letters and digits. */
  lemma {:induction false} CollapseAlnum(s: string, inRun: bool)
    ensures Lists.Filter(Collapse(s, inRun), IsAlnum) == Lists.Filter(s, IsAlnum)
  {
    if s != [] {
      var t := s[1..];
      var sep := IsSeparator(s[0]);
      var head := if !sep then [s[0]] else if inRun then [] else "-";
      CollapseAlnum(t, sep);
      assert Collapse(s, inRun) == head + Collapse(t, sep);
      assert s == [s[0]] + t;
      assert Lists.Filter(head, IsAlnum) == Lists.Filter([s[0]], IsAlnum) by {
        if sep {
          Lists.FilterNone(s[0], IsAlnum);
          if !inRun { Lists.FilterNone('-', IsAlnum); }
        }
      }
      Lists.FilterPieces(head, Collapse(t, sep), [s[0]], t, IsAlnum);
    }
  }

  /** The letters and digits of the slug are those of the lower-cased
      title, in order: only separators and other characters are lost. */
  lemma SlugKeepsAlnum(title: string)
    ensures Lists.Filter(Slug(title), IsAlnum) == Lists.Filter(Lower(title), IsAlnum)
  {
    var lowered := Lower(title);
    var kept := Lists.Filter(lowered, IsKept);
    var collapsed := Collapse(kept, false);
    var r := Text.Strip(collapsed, IsDash);
    assert Slug(title) == r;
    Lists.FilterFilter(lowered, IsKept, IsAlnum);
    CollapseAlnum(kept, false);
    StripAlnum(collapsed, r);
  }

  /** Trimming dashes never touches letters and digits. */
  lemma StripAlnum(s: string, r: string)
    requires r == Text.Strip(s, IsDash)
    ensures Lists.Filter(r, IsAlnum) == Lists.Filter(s, IsAlnum)
  {
    var k := Text.LeadingCount(s, IsDash);
    var lead, tail := s[..k], s[k + |r|..];
    assert s == lead + r + tail;
    forall i | 0 <= i < |lead|
      ensures !IsAlnum(lead[i])
    {
      assert lead[i] == s[i] && IsDash(s[i]);
    }
    forall i | 0 <= i < |tail|
      ensures !IsAlnum(tail[i])
    {
      assert tail[i] == s[k + |r| + i] && IsDash(s[k + |r| + i]);
    }
    Lists.FilterFrame(lead, r, tail, IsAlnum);
  }

  /** The slug is empty exactly when no character of the title lowers to
      a letter or digit: an all-Cyrillic title, say, gives "", while U+0130
      and U+212A count as the letters they lower to. */
  lemma SlugEmptyIff(title: string)
    ensures Slug(title) == [] <==> forall i | 0 <= i < |title| :: !LowersToAlnum(title[i])
  {
    LowerAlnum(title);
    SlugKeepsAlnum(title);
    var r := Slug(title);
    if r != [] {
      SlugHasAlnum(r);
    } else {
      assert Lists.Filter(r, IsAlnum) == [];
    }
  }

  /** Lower case works piece by piece. */
  lemma {:induction false} LowerAppend(a: string, b: string)
    ensures Lower(a + b) == Lower(a) + Lower(b)
    decreases |b|
  {
    if b == [] {
      assert a + b == a;
    } else {
      var init, c := b[..|b| - 1], b[|b| - 1];
      assert b == init + [c];
      assert a + b == (a + init) + [c];
      calc {
        Lower(a + b);
        { LowerSnoc(a + init, c); }
        Lower(a + init) + LowerChar(c);
        { LowerAppend(a, init); }
        (Lower(a) + Lower(init)) + LowerChar(c);
        Lower(a) + (Lower(init) + LowerChar(c));
        { LowerSnoc(init, c); }
        Lower(a) + Lower(b);
      }
    }
  }

  /** One step of `Lower`. */
  lemma LowerSnoc(s: string, c: char)
    ensures Lower(s + [c]) == Lower(s) + LowerChar(c)
  {
    assert (s + [c])[..|s|] == s;
  }

  /** When what survives the first replacement is already a slug, it is
      the slug. */
  lemma SlugOfKept(title: string, lowered: string, kept: string)
    requires Lower(title) == lowered
    requires Lists.Filter(lowered, IsKept) == kept && IsSlug(kept)
    ensures Slug(title) == kept
  {
    CollapseSlug(kept, false);
    Text.StripOfStripped(kept, IsDash);
  }

  predicate IsLowerWord(s: string) {
    forall i | 0 <= i < |s| :: 'a' <= s[i] <= 'z'
  }

  /** A non-empty word of lower-case letters is a slug, and so is the
      word with one more letter in front. */
  lemma LowerWordSlug(c: char, s: string)
    requires 'a' <= c <= 'z' && IsLowerWord(s)
    ensures IsLowerWord([c] + s) && IsSlug([c] + s)
  {
    var w := [c] + s;
    assert forall i | 1 <= i < |w| :: w[i] == s[i - 1];
  }

  /** U+0130 survives as the letter it lowers to: "İstanbul" gives
      "istanbul", where an ASCII-only lower case would give "stanbul". */
  lemma SlugDottedCapitalI(rest: string)
    requires IsLowerWord(rest)
    ensures Slug("\U{0130}" + rest) == "i" + rest
  {
    var dotted := "\U{0130}";
    var mark := "\U{0307}";
    LowerAppend(dotted, rest);
    LowerUnchanged(rest);
    assert Lower(dotted) == "i" + mark by {
      assert dotted[..0] == [] && dotted[0] == '\U{0130}';
    }
    assert !IsKept(mark[0]) by {
      assert mark[0] == '\U{0307}';
    }
    FilterKeptDrop("i", mark, rest);
    LowerWordSlug('i', rest);
    assert "i" == ['i'];
    SlugOfKept(dotted + rest, "i" + mark + rest, "i" + rest);
  }

  /** The Kelvin sign lowers to the letter "k": a title "\U{212A}m" gives
      "km". */
  lemma SlugKelvin(rest: string)
    requires IsLowerWord(rest)
    ensures Slug("\U{212A}" + rest) == "k" + rest
  {
    var kelvin := "\U{212A}";
    LowerAppend(kelvin, rest);
    LowerUnchanged(rest);
    assert Lower(kelvin) == "k" by {
      assert kelvin[..0] == [] && kelvin[0] == '\U{212A}';
    }
    LowerWordSlug('k', rest);
    assert "k" == ['k'];
    Lists.FilterAll("k" + rest, IsKept);
    SlugOfKept(kelvin + rest, "k" + rest, "k" + rest);
  }

  /** Filtering with `[\w\s-]` drops one character that is outside it. */
  lemma FilterKeptDrop(a: string, x: string, b: string)
    requires |x| == 1 && !IsKept(x[0])
    requires forall i | 0 <= i < |a| :: IsKept(a[i])
    requires forall i | 0 <= i < |b| :: IsKept(b[i])
    ensures Lists.Filter(a + x + b, IsKept) == a + b
  {
    var y := x[0];
    assert x == [y];
    Lists.FilterAll(a, IsKept);
    Lists.FilterAll(b, IsKept);
    Lists.FilterNone(y, IsKept);
    Lists.FilterSplice(a, y, b, IsKept);
    Lists.FilterOneFinish(a + x + b, a, y, b, IsKept);
  }

  /** A title without characters that lower to ASCII letters or digits (an
      all-Cyrillic one, say) gives the empty slug. */
  lemma SlugWithoutAlnum(title: string)
    requires forall i | 0 <= i < |title| :: !LowersToAlnum(title[i])
    ensures Slug(title) == []
  {
    SlugEmptyIff(title);
  }

  /** A non-empty slug holds a letter or digit. */
  lemma SlugHasAlnum(r: string)
    requires IsSlug(r) && r != []
    ensures Lists.Filter(r, IsAlnum) != []
  {
    assert IsAlnum(r[0]);
    Lists.CountZero(r, IsAlnum);
  }

  // ---------------------------------------------------------------------
  // Content suggestions
  // ---------------------------------------------------------------------

  /** The filter of `getUnitContentSuggestions`, scanning the rows in
      order with the set of contents already kept: a content is kept when
      it is non-empty and has not been seen. */
  function FirstSeen(contents: seq<Option<string>>, seen: set<string>): (r: seq<string>)
    ensures |r| <= |contents|
  {
    if contents == [] then []
    else
      match contents[0]
      case Some(c) =>
        if c != [] && c !in seen then [c] + FirstSeen(contents[1..], seen + {c})
        else FirstSeen(contents[1..], seen)
      case None => FirstSeen(contents[1..], seen)
  }

  /** What the scan keeps: each non-empty content not seen before, once. */
  lemma {:induction false} FirstSeenKeeps(contents: seq<Option<string>>, seen: set<string>)
    ensures forall c :: c in FirstSeen(contents, seen) <==> c !in seen && c != [] && Some(c) in contents
    ensures Lists.Distinct(FirstSeen(contents, seen))
  {
    if contents != [] {
      var rest := contents[1..];
      assert contents == [contents[0]] + rest;
      if contents[0].Some? && contents[0].value != [] && contents[0].value !in seen {
        var x := contents[0].value;
        var tail := FirstSeen(rest, seen + {x});
        FirstSeenKeeps(rest, seen + {x});
        var r := FirstSeen(contents, seen);
        assert r == [x] + tail;
        assert x !in tail;
        forall i, j | 0 <= i < j < |r|
          ensures r[i] != r[j]
        {
          assert r[j] == tail[j - 1];
          if i > 0 { assert r[i] == tail[i - 1]; }
        }
      } else {
        FirstSeenKeeps(rest, seen);
        assert FirstSeen(contents, seen) == FirstSeen(rest, seen);
      }
    }
  }

  /** The suggestions for a course, or none when the query fails. */
  function Suggestions(query: Option<seq<Option<string>>>): (r: seq<string>)
    ensures query.None? ==> r == []
    ensures query.Some? ==> forall c :: c in r <==> c != [] && Some(c) in query.value
    ensures Lists.Distinct(r)
  {
    match query
    case None => []
    case Some(contents) =>
      FirstSeenKeeps(contents, {});
      FirstSeen(contents, {})
  }

  function IsContent(c: string): Option<string> -> bool {
    (o: Option<string>) => o == Some(c)
  }

  /** Where a content first occurs among the rows. */
  function FirstRow(contents: seq<Option<string>>, c: string): int {
    Lists.FindIndex(contents, IsContent(c))
  }

  lemma {:induction false} FirstSeenInOrder(contents: seq<Option<string>>, seen: set<string>, i: nat, j: nat)
    requires i < j < |FirstSeen(contents, seen)|
    ensures var r := FirstSeen(contents, seen);
      FirstRow(contents, r[i]) < FirstRow(contents, r[j])
  {
    var r := FirstSeen(contents, seen);
    var rest := contents[1..];
    if contents[0].Some? && contents[0].value != [] && contents[0].value !in seen {
      var x := contents[0].value;
      var tail := FirstSeen(rest, seen + {x});
      assert r == [x] + tail;
      assert r[j] == tail[j - 1];
      FirstSeenFrom(rest, seen + {x}, r[j]);
      if i == 0 {
        FirstRowPositive(contents, r[j]);
      } else {
        FirstSeenInOrder(rest, seen + {x}, i - 1, j - 1);
        assert r[i] == tail[i - 1];
        FirstSeenFrom(rest, seen + {x}, r[i]);
        FirstRowSkip(contents, r[i], r[j]);
      }
    } else {
      assert r == FirstSeen(rest, seen);
      FirstSeenFrom(rest, seen, r[i]);
      FirstSeenFrom(rest, seen, r[j]);
      FirstSeenInOrder(rest, seen, i, j);
      FirstRowSkip(contents, r[i], r[j]);
    }
  }

  lemma FirstSeenFrom(contents: seq<Option<string>>, seen: set<string>, c: string)
    requires c in FirstSeen(contents, seen)
    ensures c !in seen && c != [] && Some(c) in contents
  {
    FirstSeenKeeps(contents, seen);
  }

  /** A content present in the rows, other than the first row's, first
      occurs after the first row. */
  lemma FirstRowPositive(contents: seq<Option<string>>, d: string)
    requires Some(d) in contents && contents[0] != Some(d)
    ensures FirstRow(contents, d) > 0
  {
    var k :| 0 <= k < |contents| && contents[k] == Some(d);
    assert IsContent(d)(contents[k]);
  }

  /** A first row that holds neither content shifts both positions by one. */
  lemma FirstRowSkip(contents: seq<Option<string>>, c: string, d: string)
    requires contents != [] && contents[0] != Some(c) && contents[0] != Some(d)
    requires FirstRow(contents[1..], c) < FirstRow(contents[1..], d)
    ensures FirstRow(contents, c) < FirstRow(contents, d)
  {
    assert !IsContent(c)(contents[0]) && !IsContent(d)(contents[0]);
  }

  /** The suggestions come in the order in which each content first
      appears among the rows. */
  lemma SuggestionsInOrder(contents: seq<Option<string>>, i: nat, j: nat)
    requires i < j < |Suggestions(Some(contents))|
    ensures var r := Suggestions(Some(contents));
      FirstRow(contents, r[i]) < FirstRow(contents, r[j])
  {
    FirstSeenInOrder(contents, {}, i, j);
  }

  // ---------------------------------------------------------------------
  // Course summaries
  // ---------------------------------------------------------------------

  /** A unit row of the course query; `lessons` holds the lesson ids and is
      `None` when the relation came back missing. */
  datatype UnitRow = UnitRow(
    id: string, title: string, titleMn: Option<string>, orderIndex: int,
    unitContent: Option<string>, lessons: Option<seq<string>>)

  datatype CourseRow = CourseRow(id: string, title: string, units: Option<seq<UnitRow>>)

  datatype UnitSummary = UnitSummary(
    id: string, orderIndex: int, title: string, titleMn: Option<string>,
    unitContent: Option<string>, lessonsCount: nat)

  datatype CourseSummary = CourseSummary(
    id: string, title: string, unitsCount: nat, lessonsCount: nat, units: seq<UnitSummary>)

  /** `unit.lessons?.length || 0`. */
  function LessonCount(u: UnitRow): nat {
    match u.lessons
    case Some(ls) => |ls|
    case None => 0
  }

  function OrderOf(u: UnitRow): int {
    u.orderIndex
  }

  function SummaryOrder(u: UnitSummary): int {
    u.orderIndex
  }

  function SummaryLessons(u: UnitSummary): nat {
    u.lessonsCount
  }

  function SummaryOf(u: UnitRow): (r: UnitSummary)
    ensures r.id == u.id && r.orderIndex == u.orderIndex && r.lessonsCount == LessonCount(u)
  {
    UnitSummary(u.id, u.orderIndex, u.title, u.titleMn, u.unitContent, LessonCount(u))
  }

  function Summaries(us: seq<UnitRow>): (r: seq<UnitSummary>)
    ensures |r| == |us|
    ensures forall i | 0 <= i < |us| :: r[i] == SummaryOf(us[i])
  {
    if us == [] then [] else Summaries(us[..|us| - 1]) + [SummaryOf(us[|us| - 1])]
  }

  function UnitsOf(c: CourseRow): seq<UnitRow> {
    match c.units
    case Some(us) => us
    case None => []
  }

  /** One course of `getCoursesWithUnitSummary`: the units sorted by
      `order_index`, their number, and the lessons summed over them. */
  function Summarize(c: CourseRow): (r: CourseSummary)
    ensures r.id == c.id && r.title == c.title
    ensures r.unitsCount == |UnitsOf(c)| == |r.units|
    ensures forall i, j | 0 <= i < j < |r.units| :: r.units[i].orderIndex <= r.units[j].orderIndex
  {
    var units := UnitsOf(c);
    var sorted := Sorting.SortBy(units, OrderOf);
    assert |sorted| == |multiset(sorted)| == |units|;
    assert forall i | 0 <= i < |sorted| :: Summaries(sorted)[i].orderIndex == sorted[i].orderIndex;
    CourseSummary(c.id, c.title, |units|, Lists.Sum(units, LessonCount), Summaries(sorted))
  }

  /** Summarising then filtering is filtering then summarising, when the
      two tests agree on every row. */
  lemma {:induction false} SummariesFilter(us: seq<UnitRow>, p: UnitRow -> bool, q: UnitSummary -> bool)
    requires forall u :: q(SummaryOf(u)) == p(u)
    ensures Lists.Filter(Summaries(us), q) == Summaries(Lists.Filter(us, p))
  {
    if us != [] {
      var init, u := us[..|us| - 1], us[|us| - 1];
      SummariesFilter(init, p, q);
      assert Summaries(us) == Summaries(init) + [SummaryOf(u)];
      if p(u) {
        assert Lists.Filter(us, p) == Lists.Filter(init, p) + [u];
      } else {
        assert Lists.Filter(us, p) == Lists.Filter(init, p) + [];
        assert Lists.Filter(init, p) + [] == Lists.Filter(init, p);
      }
    }
  }

  lemma {:induction false} SummariesSum(us: seq<UnitRow>)
    ensures Lists.Sum(Summaries(us), SummaryLessons) == Lists.Sum(us, LessonCount)
  {
    if us != [] {
      var init, u := us[..|us| - 1], us[|us| - 1];
      SummariesSum(init);
      assert Summaries(us) == Summaries(init) + [SummaryOf(u)];
      Lists.SumSnoc(Summaries(init), SummaryOf(u), SummaryLessons);
    }
  }

  /** A summary has the key of its unit. */
  lemma SummaryKeys(k: int)
    ensures forall u :: Sorting.HasKey(SummaryOrder, k)(SummaryOf(u)) == Sorting.HasKey(OrderOf, k)(u)
  {
    forall u
      ensures Sorting.HasKey(SummaryOrder, k)(SummaryOf(u)) == Sorting.HasKey(OrderOf, k)(u)
    {
      assert SummaryOrder(SummaryOf(u)) == OrderOf(u);
    }
  }

  /** The sort is stable: units with equal `order_index` keep their order
      among the course's units. Together with the sortedness above this
      makes the summary's list a stable sort of the course's units. */
  lemma SummaryStable(c: CourseRow, k: int)
    ensures Lists.Filter(Summarize(c).units, Sorting.HasKey(SummaryOrder, k))
         == Summaries(Lists.Filter(UnitsOf(c), Sorting.HasKey(OrderOf, k)))
  {
    var sorted := Sorting.SortBy(UnitsOf(c), OrderOf);
    SummaryKeys(k);
    SummariesFilter(sorted, Sorting.HasKey(OrderOf, k), Sorting.HasKey(SummaryOrder, k));
    Sorting.SortByStable(UnitsOf(c), OrderOf, k);
  }

  /** The course's lesson total is the sum of its listed units' counts. */
  lemma SummaryLessonsCount(c: CourseRow)
    ensures Summarize(c).lessonsCount == Lists.Sum(Summarize(c).units, SummaryLessons)
  {
    var sorted := Sorting.SortBy(UnitsOf(c), OrderOf);
    SummariesSum(sorted);
    Sorting.SortBySum(UnitsOf(c), OrderOf, LessonCount);
  }

  // ---------------------------------------------------------------------
  // A single unit's lessons
  // ---------------------------------------------------------------------

  datatype LessonRow = LessonRow(id: string, orderInUnit: Option<int>)

  datatype UnitDetailRow = UnitDetailRow(id: string, lessons: Option<seq<LessonRow>>)

  datatype UnitDetail = UnitDetail(id: string, lessons: seq<LessonRow>, lessonsCount: nat)

  /** `a.order_in_unit || 0`. */
  function LessonOrder(l: LessonRow): int {
    match l.orderInUnit
    case Some(v) => v
    case None => 0
  }

  /** `getUnit`: nothing when the query fails, otherwise the lessons
      sorted by their place in the unit, a missing place counting as 0. */
  function GetUnit(query: Option<UnitDetailRow>): (r: Option<UnitDetail>)
    ensures r.Some? <==> query.Some?
    ensures r.Some? ==> r.value.id == query.value.id && r.value.lessonsCount == |r.value.lessons|
    ensures r.Some? ==> Sorting.SortedBy(r.value.lessons, LessonOrder)
    ensures r.Some? ==> multiset(r.value.lessons) == multiset(query.value.lessons.GetOr([]))
  {
    match query
    case None => None
    case Some(row) =>
      var lessons := Sorting.SortBy(row.lessons.GetOr([]), LessonOrder);
      Some(UnitDetail(row.id, lessons, |lessons|))
  }

  /** Lessons sharing a place keep their order. */
  lemma GetUnitStable(row: UnitDetailRow, k: int)
    ensures Lists.Filter(GetUnit(Some(row)).value.lessons, Sorting.HasKey(LessonOrder, k))
         == Lists.Filter(row.lessons.GetOr([]), Sorting.HasKey(LessonOrder, k))
  {
    Sorting.SortByStable(row.lessons.GetOr([]), LessonOrder, k);
  }

  // ---------------------------------------------------------------------
  // Deleting a unit
  // ---------------------------------------------------------------------

  /** `deleteUnit`: refused while the unit still holds lessons; otherwise
      the outcome of the delete itself. */
  function DeleteUnit(lessonCount: Option<nat>, deleteError: Option<string>): (r: ActionResult<()>)
    ensures r.success <==> (lessonCount.None? || lessonCount.value == 0) && deleteError.None?
    ensures lessonCount.Some? && lessonCount.value > 0
            ==> r.message == "Cannot delete: " + Text.NatToString(lessonCount.value) + " lesson(s) exist in this unit"
    ensures (lessonCount.None? || lessonCount.value == 0) && deleteError.Some? ==> r.message == deleteError.value
  {
    if lessonCount.Some? && lessonCount.value > 0 then
      ActionResult(false, "Cannot delete: " + Text.NatToString(lessonCount.value) + " lesson(s) exist in this unit", None)
    else if deleteError.Some? then ActionResult(false, deleteError.value, None)
    else ActionResult(true, "Unit deleted successfully", None)
  }
}
