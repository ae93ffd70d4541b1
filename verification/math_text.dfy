/**
 * `MathText`: splitting a text into plain runs, inline math `$…$` and block
 * math `$$…$$`, and `hasMath`. The two regular expressions are modelled
 * exactly: a match starts at the earliest position where the opening
 * delimiter is followed, on the same line, by a closing one, and the lazy
 * `.*?` stops at the first closing delimiter.
 */
module MathText {
  import opened Wrappers
  import Text
  import Lists

  datatype Part = TextPart(content: string) | InlinePart(content: string) | BlockPart(content: string)

  /** What the component renders: nothing, a plain span, or the parts. */
  datatype View = Nothing | Plain(text: string) | Parts(parts: seq<Part>)

  /** The two delimiters: `$` for inline math, `$$` for block math. */
  datatype Delim = Dollar | DoubleDollar {
    function Width(): nat {
      if Dollar? then 1 else 2
    }
    function Token(): string {
      if Dollar? then "$" else "$$"
    }
  }

  /** No character the regex `.` refuses. */
  predicate SingleLine(s: string) {
    forall i | 0 <= i < |s| :: !Text.IsJsLineTerminator(s[i])
  }

  /** The delimiter occurs in `s` at index `i`. */
  predicate At(s: string, i: nat, d: Delim) {
    i + d.Width() <= |s| && s[i] == '$' && (d.DoubleDollar? ==> s[i + 1] == '$')
  }

  lemma AtToken(s: string, i: nat, d: Delim)
    requires At(s, i, d)
    ensures s[i..i + d.Width()] == d.Token()
  {
  }

  /** The lazy `.*?` followed by the closing delimiter, from index `k`: the
      first occurrence of `d` at or after `k` with no line terminator
      before it. */
  function Close(s: string, d: Delim, k: nat): (r: Option<nat>)
    ensures r.Some? ==> k <= r.value && r.value + d.Width() <= |s|
    decreases |s| - k
  {
    if k + d.Width() > |s| then None
    else if At(s, k, d) then Some(k)
    else if Text.IsJsLineTerminator(s[k]) then None
    else Close(s, d, k + 1)
  }

  /** The closing delimiter found is the first one, and no line ends
      before it. */
  lemma {:induction false} CloseFirst(s: string, d: Delim, k: nat)
    requires Close(s, d, k).Some?
    ensures At(s, Close(s, d, k).value, d)
    ensures forall j | k <= j < Close(s, d, k).value :: !At(s, j, d) && !Text.IsJsLineTerminator(s[j])
    decreases |s| - k
  {
    if !At(s, k, d) {
      CloseFirst(s, d, k + 1);
    }
  }

  /** The regex `d(.*?)d` tried at index `i`: where the closing delimiter
      starts, if the match succeeds. */
  function MatchAt(s: string, d: Delim, i: nat): (r: Option<nat>)
    ensures r.Some? ==> i + d.Width() <= r.value && r.value + d.Width() <= |s|
  {
    if At(s, i, d) then Close(s, d, i + d.Width()) else None
  }

  /** A match starts and ends with the delimiter. */
  lemma MatchDelimited(s: string, d: Delim, i: nat)
    requires MatchAt(s, d, i).Some?
    ensures At(s, i, d) && At(s, MatchAt(s, d, i).value, d)
  {
    CloseFirst(s, d, i + d.Width());
  }

  datatype Match = Match(start: nat, close: nat)

  /** `RegExp.prototype.exec` of a global regex with `lastIndex == from`. */
  function NextMatch(s: string, d: Delim, from: nat): (r: Option<Match>)
    ensures r.Some? ==> from <= r.value.start && r.value.start + d.Width() <= r.value.close
    ensures r.Some? ==> r.value.close + d.Width() <= |s|
    decreases |s| + 1 - from
  {
    if from > |s| then None
    else
      match MatchAt(s, d, from)
      case Some(c) => Some(Match(from, c))
      case None => NextMatch(s, d, from + 1)
  }

  /** The match found is a match. */
  lemma {:induction false} NextMatchIs(s: string, d: Delim, from: nat)
    requires NextMatch(s, d, from).Some?
    ensures MatchAt(s, d, NextMatch(s, d, from).value.start) == Some(NextMatch(s, d, from).value.close)
    decreases |s| + 1 - from
  {
    if MatchAt(s, d, from).None? {
      NextMatchIs(s, d, from + 1);
    }
  }

  /** Without a match at or after `from`, none is found. */
  lemma {:induction false} NoMatchNone(s: string, d: Delim, from: nat)
    requires forall i | from <= i :: MatchAt(s, d, i).None?
    ensures NextMatch(s, d, from).None?
    decreases |s| + 1 - from
  {
    if from <= |s| {
      NoMatchNone(s, d, from + 1);
    }
  }

  /** The match found is the leftmost one. */
  lemma {:induction false} NextMatchEarliest(s: string, d: Delim, from: nat)
    ensures NextMatch(s, d, from).Some? ==>
      forall i | from <= i < NextMatch(s, d, from).value.start :: MatchAt(s, d, i).None?
    ensures NextMatch(s, d, from).None? ==> forall i | from <= i :: MatchAt(s, d, i).None?
    decreases |s| + 1 - from
  {
    if from <= |s| && MatchAt(s, d, from).None? {
      NextMatchEarliest(s, d, from + 1);
    }
  }

  /** A match anywhere at or after `from` is found. */
  lemma MatchFound(s: string, d: Delim, from: nat, i: nat)
    requires from <= i && MatchAt(s, d, i).Some?
    ensures NextMatch(s, d, from).Some?
  {
    NextMatchEarliest(s, d, from);
  }

  /** The text run before a match, if it is not empty. */
  function Before(s: string, from: nat, start: nat): (r: seq<Part>)
    requires from <= start <= |s|
  {
    if start > from then [TextPart(s[from..start])] else []
  }

  /** The block pass (the first loop): the parts pushed up to the end of
      the last `$$…$$` match. Text before a block is pushed as it is. */
  function Blocks(s: string, from: nat): (r: seq<Part>)
    requires from <= |s|
    decreases |s| - from
  {
    match NextMatch(s, DoubleDollar, from)
    case None => []
    case Some(m) =>
      Before(s, from, m.start) + [BlockPart(s[m.start + 2..m.close])] + Blocks(s, m.close + 2)
  }

  /** Where the block pass leaves `lastIndex`: the end of the last match. */
  function BlocksEnd(s: string, from: nat): (r: nat)
    requires from <= |s|
    ensures from <= r <= |s|
    decreases |s| - from
  {
    match NextMatch(s, DoubleDollar, from)
    case None => from
    case Some(m) => BlocksEnd(s, m.close + 2)
  }

  /** One step of the block pass. */
  lemma BlocksStep(s: string, from: nat, m: Match)
    requires from <= |s| && NextMatch(s, DoubleDollar, from) == Some(m)
    ensures m.close + 2 <= |s|
    ensures Blocks(s, from) == Before(s, from, m.start) + [BlockPart(s[m.start + 2..m.close])] + Blocks(s, m.close + 2)
  {
  }

  lemma BlocksEndStep(s: string, from: nat, m: Match)
    requires from <= |s| && NextMatch(s, DoubleDollar, from) == Some(m)
    ensures m.close + 2 <= |s|
    ensures BlocksEnd(s, from) == BlocksEnd(s, m.close + 2)
  {
  }

  /** The inline pass (the second loop) over `t` from `from`, including the
      text after the last match. */
  function Inlines(t: string, from: nat): (r: seq<Part>)
    requires from <= |t|
    decreases |t| - from
  {
    match NextMatch(t, Dollar, from)
    case None => if from < |t| then [TextPart(t[from..])] else []
    case Some(m) =>
      Before(t, from, m.start) + [InlinePart(t[m.start + 1..m.close])] + Inlines(t, m.close + 1)
  }

  /** One step of the inline pass. */
  lemma InlinesStep(t: string, from: nat, m: Match)
    requires from <= |t| && NextMatch(t, Dollar, from) == Some(m)
    ensures m.close + 1 <= |t|
    ensures Inlines(t, from) == Before(t, from, m.start) + [InlinePart(t[m.start + 1..m.close])] + Inlines(t, m.close + 1)
  {
  }

  /** The parts `MathText` pushes: the block pass, then the inline pass
      over the text after the last block only. */
  function Segments(s: string): seq<Part> {
    var last := BlocksEnd(s, 0);
    var remaining := if last < |s| then s[last..] else [];
    Blocks(s, 0) + (if remaining != [] then Inlines(remaining, 0) else [])
  }

  /** `MathText`. */
  function Render(s: string): View {
    if s == [] then Nothing
    else if Segments(s) == [] then Plain(s)
    else Parts(Segments(s))
  }

  /** `hasMath`: either alternative of `/\$.*?\$|\$\$.*?\$\$/` matches
      somewhere. */
  predicate HasMath(s: string) {
    exists i: nat | i <= |s| :: MatchAt(s, Dollar, i).Some? || MatchAt(s, DoubleDollar, i).Some?
  }

  /** The source text a part stands for, delimiters included. */
  function Source(p: Part): string {
    match p
    case TextPart(c) => c
    case InlinePart(c) => Dollar.Token() + c + Dollar.Token()
    case BlockPart(c) => DoubleDollar.Token() + c + DoubleDollar.Token()
  }

  function Restore(parts: seq<Part>): string {
    if parts == [] then [] else Source(parts[0]) + Restore(parts[1..])
  }

  lemma {:induction false} RestoreAppend(a: seq<Part>, b: seq<Part>)
    ensures Restore(a + b) == Restore(a) + Restore(b)
  {
    if a != [] {
      assert (a + b)[0] == a[0];
      assert (a + b)[1..] == a[1..] + b;
      RestoreAppend(a[1..], b);
    } else {
      assert a + b == b;
    }
  }

  lemma RestoreSingle(p: Part)
    ensures Restore([p]) == Source(p)
  {
    assert [p][1..] == [];
  }

  /** What each part promises: text runs are never empty, math never spans
      a line, inline math holds no `$` and block math no `$$`. */
  predicate WellFormed(p: Part) {
    match p
    case TextPart(c) => c != []
    case InlinePart(c) => SingleLine(c) && forall i | 0 <= i < |c| :: !At(c, i, Dollar)
    case BlockPart(c) => SingleLine(c) && forall i | 0 <= i < |c| :: !At(c, i, DoubleDollar)
  }

  predicate AllWellFormed(parts: seq<Part>) {
    forall i | 0 <= i < |parts| :: WellFormed(parts[i])
  }

  /** A match spells its delimiters around its content. */
  lemma MatchSource(s: string, d: Delim, m: Match)
    requires MatchAt(s, d, m.start) == Some(m.close)
    ensures s[m.start..m.close + d.Width()] == d.Token() + s[m.start + d.Width()..m.close] + d.Token()
  {
    var k := m.start + d.Width();
    MatchDelimited(s, d, m.start);
    AtToken(s, m.start, d);
    AtToken(s, m.close, d);
    assert s[m.start..m.close + d.Width()] == s[m.start..k] + s[k..m.close] + s[m.close..m.close + d.Width()];
  }

  /** The content of a match stays on one line and holds no delimiter. */
  lemma MatchContent(s: string, d: Delim, m: Match)
    requires MatchAt(s, d, m.start) == Some(m.close)
    ensures var c := s[m.start + d.Width()..m.close];
      SingleLine(c) && forall i | 0 <= i < |c| :: !At(c, i, d)
  {
    var k := m.start + d.Width();
    var c := s[k..m.close];
    assert Close(s, d, k) == Some(m.close);
    CloseFirst(s, d, k);
    forall i | 0 <= i < |c|
      ensures !At(c, i, d)
    {
      if At(c, i, d) {
        assert At(s, k + i, d);
      }
    }
  }

  lemma SliceSplit(s: string, a: nat, b: nat, c: nat, e: nat)
    requires a <= b <= c <= e <= |s|
    ensures s[a..e] == s[a..b] + s[b..c] + s[c..e]
  {
  }

  lemma BeforeRestore(s: string, from: nat, start: nat)
    requires from <= start <= |s|
    ensures Restore(Before(s, from, start)) == s[from..start]
    ensures AllWellFormed(Before(s, from, start))
  {
    if start > from {
      RestoreSingle(TextPart(s[from..start]));
    }
  }

  /** One step of either pass: the text before a match, the match and what
      follows spell out the text from `from` on. */
  lemma StepRestore(s: string, d: Delim, from: nat, m: Match, math: Part, rest: seq<Part>, end: nat)
    requires from <= m.start && MatchAt(s, d, m.start) == Some(m.close)
    requires Source(math) == d.Token() + s[m.start + d.Width()..m.close] + d.Token()
    requires m.close + d.Width() <= end <= |s| && Restore(rest) == s[m.close + d.Width()..end]
    ensures Restore(Before(s, from, m.start) + [math] + rest) == s[from..end]
  {
    var before := Before(s, from, m.start);
    var k := m.close + d.Width();
    BeforeRestore(s, from, m.start);
    MatchSource(s, d, m);
    RestoreSingle(math);
    calc {
      Restore(before + [math] + rest);
      { RestoreAppend(before + [math], rest); }
      Restore(before + [math]) + Restore(rest);
      { RestoreAppend(before, [math]); }
      Restore(before) + Restore([math]) + Restore(rest);
      s[from..m.start] + s[m.start..k] + s[k..end];
      { SliceSplit(s, from, m.start, k, end); }
      s[from..end];
    }
  }

  lemma WellFormedJoin(a: seq<Part>, p: Part, b: seq<Part>)
    requires AllWellFormed(a) && WellFormed(p) && AllWellFormed(b)
    ensures AllWellFormed(a + [p] + b)
  {
    var r := a + [p] + b;
    forall i | 0 <= i < |r|
      ensures WellFormed(r[i])
    {
      if i < |a| {
        assert r[i] == a[i];
      } else if i > |a| {
        assert r[i] == b[i - |a| - 1];
      }
    }
  }

  lemma BlocksStepRestore(s: string, from: nat, m: Match)
    requires from <= |s| && NextMatch(s, DoubleDollar, from) == Some(m)
    requires m.close + 2 <= |s|
    requires Restore(Blocks(s, m.close + 2)) == s[m.close + 2..BlocksEnd(s, m.close + 2)]
    ensures Restore(Blocks(s, from)) == s[from..BlocksEnd(s, from)]
  {
    var rest, end := Blocks(s, m.close + 2), BlocksEnd(s, m.close + 2);
    NextMatchIs(s, DoubleDollar, from);
    StepRestore(s, DoubleDollar, from, m, BlockPart(s[m.start + 2..m.close]), rest, end);
    BlocksStep(s, from, m);
    BlocksEndStep(s, from, m);
  }

  lemma BlocksLastRestore(s: string, from: nat)
    requires from <= |s| && NextMatch(s, DoubleDollar, from).None?
    ensures Restore(Blocks(s, from)) == s[from..BlocksEnd(s, from)]
  {
    assert Blocks(s, from) == [] && BlocksEnd(s, from) == from;
    assert s[from..from] == [];
  }

  lemma {:induction false} BlocksRestore(s: string, from: nat)
    requires from <= |s|
    ensures Restore(Blocks(s, from)) == s[from..BlocksEnd(s, from)]
    decreases |s| - from
  {
    var next := NextMatch(s, DoubleDollar, from);
    if next.None? {
      BlocksLastRestore(s, from);
    } else {
      var m := next.value;
      BlocksRestore(s, m.close + 2);
      BlocksStepRestore(s, from, m);
    }
  }

  lemma {:induction false} BlocksWellFormed(s: string, from: nat)
    requires from <= |s|
    ensures AllWellFormed(Blocks(s, from))
    decreases |s| - from
  {
    match NextMatch(s, DoubleDollar, from)
    case None =>
    case Some(m) =>
      BlocksWellFormed(s, m.close + 2);
      BlocksStep(s, from, m);
      NextMatchIs(s, DoubleDollar, from);
      MatchContent(s, DoubleDollar, m);
      BeforeRestore(s, from, m.start);
      WellFormedJoin(Before(s, from, m.start), BlockPart(s[m.start + 2..m.close]), Blocks(s, m.close + 2));
  }

  /** The inline pass ends with the text after the last match. */
  lemma InlinesLast(t: string, from: nat)
    requires from <= |t| && NextMatch(t, Dollar, from).None?
    ensures Inlines(t, from) == Before(t, from, |t|)
  {
    assert t[from..] == t[from..|t|];
  }

  lemma InlinesStepRestore(t: string, from: nat, m: Match)
    requires from <= |t| && NextMatch(t, Dollar, from) == Some(m)
    requires m.close + 1 <= |t|
    requires Restore(Inlines(t, m.close + 1)) == t[m.close + 1..|t|]
    ensures Restore(Inlines(t, from)) == t[from..|t|]
  {
    NextMatchIs(t, Dollar, from);
    StepRestore(t, Dollar, from, m, InlinePart(t[m.start + 1..m.close]), Inlines(t, m.close + 1), |t|);
    InlinesStep(t, from, m);
  }

  lemma InlinesLastRestore(t: string, from: nat)
    requires from <= |t| && NextMatch(t, Dollar, from).None?
    ensures Restore(Inlines(t, from)) == t[from..|t|]
  {
    InlinesLast(t, from);
    BeforeRestore(t, from, |t|);
  }

  lemma {:induction false} InlinesRestore(t: string, from: nat)
    requires from <= |t|
    ensures Restore(Inlines(t, from)) == t[from..|t|]
    decreases |t| - from
  {
    match NextMatch(t, Dollar, from)
    case None =>
      InlinesLastRestore(t, from);
    case Some(m) =>
      InlinesRestore(t, m.close + 1);
      InlinesStepRestore(t, from, m);
  }

  lemma {:induction false} InlinesWellFormed(t: string, from: nat)
    requires from <= |t|
    ensures AllWellFormed(Inlines(t, from))
    decreases |t| - from
  {
    match NextMatch(t, Dollar, from)
    case None =>
      InlinesLast(t, from);
      BeforeRestore(t, from, |t|);
    case Some(m) =>
      InlinesWellFormed(t, m.close + 1);
      InlinesStep(t, from, m);
      NextMatchIs(t, Dollar, from);
      MatchContent(t, Dollar, m);
      BeforeRestore(t, from, m.start);
      WellFormedJoin(Before(t, from, m.start), InlinePart(t[m.start + 1..m.close]), Inlines(t, m.close + 1));
  }

  lemma SplitRemaining(s: string, last: nat)
    requires last <= |s|
    ensures s[0..last] + (if last < |s| then s[last..] else []) == s
  {
  }

  lemma WholeSlice(t: string)
    ensures t[0..|t|] == t
  {
  }

  lemma SegmentsRestore(s: string)
    ensures Restore(Segments(s)) == s
  {
    var last := BlocksEnd(s, 0);
    var remaining := if last < |s| then s[last..] else [];
    var inlines := if remaining != [] then Inlines(remaining, 0) else [];
    BlocksRestore(s, 0);
    if remaining != [] {
      InlinesRestore(remaining, 0);
      WholeSlice(remaining);
    }
    RestoreAppend(Blocks(s, 0), inlines);
    SplitRemaining(s, last);
  }

  lemma SegmentsWellFormed(s: string)
    ensures AllWellFormed(Segments(s))
  {
    var last := BlocksEnd(s, 0);
    var remaining := if last < |s| then s[last..] else [];
    var inlines := if remaining != [] then Inlines(remaining, 0) else [];
    BlocksWellFormed(s, 0);
    if remaining != [] {
      InlinesWellFormed(remaining, 0);
    }
    assert Segments(s) == Blocks(s, 0) + inlines;
  }

  /** Nothing is rendered exactly for the empty text; otherwise the parts
      spell out the text again, delimiters included, and each keeps its
      promise. The plain-text fallback is never reached. */
  lemma RenderRoundTrip(s: string)
    ensures Render(s).Nothing? <==> s == []
    ensures !Render(s).Plain?
    ensures Render(s).Parts? ==> Restore(Render(s).parts) == s && AllWellFormed(Render(s).parts)
  {
    SegmentsRestore(s);
    SegmentsWellFormed(s);
  }

  predicate IsMath(p: Part) {
    !p.TextPart?
  }

  /** Any `$$…$$` match is also a `$…$` match at the same place. */
  lemma BlockIsInline(s: string, i: nat)
    requires MatchAt(s, DoubleDollar, i).Some?
    ensures MatchAt(s, Dollar, i) == Some(i + 1)
  {
    MatchDelimited(s, DoubleDollar, i);
    assert At(s, i + 1, Dollar);
  }

  /** The first match of a pass always yields a math part. */
  lemma BlocksHaveMath(s: string, from: nat)
    requires from <= |s| && NextMatch(s, DoubleDollar, from).Some?
    ensures Lists.Count(Blocks(s, from), IsMath) > 0
  {
    var m := NextMatch(s, DoubleDollar, from).value;
    var before := Before(s, from, m.start);
    var block := BlockPart(s[m.start + 2..m.close]);
    var rest := Blocks(s, m.close + 2);
    BlocksStep(s, from, m);
    Lists.CountAppend(before + [block], rest, IsMath);
    Lists.CountAppend(before, [block], IsMath);
    Lists.CountSingle(block, IsMath);
  }

  lemma InlinesHaveMath(t: string, from: nat)
    requires from <= |t| && NextMatch(t, Dollar, from).Some?
    ensures Lists.Count(Inlines(t, from), IsMath) > 0
  {
    var m := NextMatch(t, Dollar, from).value;
    var before := Before(t, from, m.start);
    var inline := InlinePart(t[m.start + 1..m.close]);
    var rest := Inlines(t, m.close + 1);
    InlinesStep(t, from, m);
    Lists.CountAppend(before + [inline], rest, IsMath);
    Lists.CountAppend(before, [inline], IsMath);
    Lists.CountSingle(inline, IsMath);
  }

  /** `hasMath` holds exactly when the component renders some math. */
  lemma HasMathIff(s: string)
    ensures HasMath(s) <==> Render(s).Parts? && Lists.Count(Render(s).parts, IsMath) > 0
  {
    RenderRoundTrip(s);
    if HasMath(s) {
      var i: nat :| i <= |s| && (MatchAt(s, Dollar, i).Some? || MatchAt(s, DoubleDollar, i).Some?);
      SomeMath(s, i);
    } else {
      NoMath(s);
    }
  }

  lemma SomeMath(s: string, i: nat)
    requires i <= |s| && (MatchAt(s, Dollar, i).Some? || MatchAt(s, DoubleDollar, i).Some?)
    ensures Lists.Count(Segments(s), IsMath) > 0
  {
    var last := BlocksEnd(s, 0);
    var remaining := if last < |s| then s[last..] else [];
    var inlines := if remaining != [] then Inlines(remaining, 0) else [];
    assert Segments(s) == Blocks(s, 0) + inlines;
    Lists.CountAppend(Blocks(s, 0), inlines, IsMath);
    if NextMatch(s, DoubleDollar, 0).Some? {
      BlocksHaveMath(s, 0);
    } else {
      if MatchAt(s, DoubleDollar, i).Some? {
        BlockIsInline(s, i);
      }
      assert s[0..] == s;
      MatchFound(s, Dollar, 0, i);
      InlinesHaveMath(s, 0);
    }
  }

  lemma NoMath(s: string)
    requires !HasMath(s)
    ensures Lists.Count(Segments(s), IsMath) == 0
  {
    forall i: nat | i <= |s|
      ensures MatchAt(s, DoubleDollar, i).None?
    {
      if MatchAt(s, DoubleDollar, i).Some? {
        BlockIsInline(s, i);
      }
    }
    NoMatchNone(s, DoubleDollar, 0);
    assert s[0..] == s;
    if s != [] {
      NoMatchNone(s, Dollar, 0);
      InlinesLast(s, 0);
      assert Segments(s) == [] + [TextPart(s)];
      Lists.CountSingle(TextPart(s), IsMath);
    }
  }

  /** The reading of `hasMath` in plain words: two `$` with no line
      terminator between them. */
  predicate TwoDollars(s: string) {
    exists i, j | 0 <= i < j < |s| :: s[i] == '$' && s[j] == '$' && SingleLine(s[i + 1..j])
  }

  /** The lazy scan reaches any later delimiter that no line end precedes. */
  lemma {:induction false} CloseReaches(s: string, d: Delim, k: nat, j: nat)
    requires k <= j && At(s, j, d)
    requires forall x | k <= x < j :: !Text.IsJsLineTerminator(s[x])
    ensures Close(s, d, k).Some?
    decreases j - k
  {
    if k < j && !At(s, k, d) {
      CloseReaches(s, d, k + 1, j);
    }
  }

  lemma HasMathTwoDollars(s: string)
    ensures HasMath(s) <==> TwoDollars(s)
  {
    if HasMath(s) {
      var i: nat :| i <= |s| && (MatchAt(s, Dollar, i).Some? || MatchAt(s, DoubleDollar, i).Some?);
      if MatchAt(s, DoubleDollar, i).Some? {
        BlockIsInline(s, i);
      }
      var j := MatchAt(s, Dollar, i).value;
      MatchDelimited(s, Dollar, i);
      MatchContent(s, Dollar, Match(i, j));
      assert s[i] == '$' && s[j] == '$' && SingleLine(s[i + 1..j]);
    }
    if TwoDollars(s) {
      var i, j :| 0 <= i < j < |s| && s[i] == '$' && s[j] == '$' && SingleLine(s[i + 1..j]);
      forall x | i + 1 <= x < j
        ensures !Text.IsJsLineTerminator(s[x])
      {
        assert s[x] == s[i + 1..j][x - i - 1];
      }
      CloseReaches(s, Dollar, i + 1, j);
      assert MatchAt(s, Dollar, i).Some?;
    }
  }

  /** The block pass never yields inline math. */
  lemma {:induction false} BlocksNoInline(s: string, from: nat)
    requires from <= |s|
    ensures forall i | 0 <= i < |Blocks(s, from)| :: !Blocks(s, from)[i].InlinePart?
    decreases |s| - from
  {
    match NextMatch(s, DoubleDollar, from)
    case None =>
    case Some(m) =>
      BlocksNoInline(s, m.close + 2);
      BlocksStep(s, from, m);
  }

  /** The inline pass never yields block math. */
  lemma {:induction false} InlinesNoBlock(t: string, from: nat)
    requires from <= |t|
    ensures forall i | 0 <= i < |Inlines(t, from)| :: !Inlines(t, from)[i].BlockPart?
    decreases |t| - from
  {
    match NextMatch(t, Dollar, from)
    case None =>
      InlinesLast(t, from);
    case Some(m) =>
      InlinesNoBlock(t, m.close + 1);
      InlinesStep(t, from, m);
  }

  /** Inline math is recognised only after the last block: no block comes
      after an inline part, so text before or between blocks stays as it
      is, `$` included. */
  lemma InlineOnlyAfterBlocks(s: string)
    ensures var parts := Segments(s);
      forall i, j | 0 <= i < j < |parts| :: !(parts[i].InlinePart? && parts[j].BlockPart?)
  {
    var last := BlocksEnd(s, 0);
    var remaining := if last < |s| then s[last..] else [];
    var inlines := if remaining != [] then Inlines(remaining, 0) else [];
    var blocks := Blocks(s, 0);
    BlocksNoInline(s, 0);
    if remaining != [] {
      InlinesNoBlock(remaining, 0);
    }
    var parts := blocks + inlines;
    assert Segments(s) == parts;
    forall i, j | 0 <= i < j < |parts|
      ensures !(parts[i].InlinePart? && parts[j].BlockPart?)
    {
      if j < |blocks| {
        assert parts[i] == blocks[i];
      } else {
        assert parts[j] == inlines[j - |blocks|];
      }
    }
  }
}
