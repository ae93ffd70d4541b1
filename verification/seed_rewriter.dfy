/**
 * The seed-file rewriter `transform_mock_test_insert`
 * (supabase/seeds/eysh/transform_seeds_v2.py, lines 12-98).
 *
 * Every statement `INSERT INTO mock_tests (cols) VALUES (vals);` of a seed
 * file is located, its columns and values are split and paired by position,
 * the pairs whose column is deprecated are dropped, and the survivors are
 * written back in one canonical multi-line layout. All other text is copied.
 *
 * The three regular expressions of the script are modelled by hand:
 *   - `MatchAt` is the statement pattern tried at one position. Each greedy
 *     part of it can only succeed at one extent, so the match is a function.
 *   - `ColsSearch` and `ValsSearch` are the two `re.search` calls inside the
 *     replacement function, each the leftmost success of `ColsAt` / `ValsAt`.
 * Whitespace (`\s`, `strip()`) is Python's whitespace class.
 */
module SeedRewriter {
  import opened Wrappers
  import opened Text
  import opened ValueSplitter

  const Keyword := "INSERT INTO mock_tests"
  const ValuesWord := "VALUES"

  /** The fixed text of the canonical layout. */
  const Indent := "\n    "
  const Header := Keyword + " (" + Indent
  const Sep := "," + Indent
  const Middle := "\n) " + ValuesWord + " (" + Indent
  const Footer := "\n);"

  /** The columns the current schema no longer has. */
  const Deprecated: set<string> := {
    "passing_score_percentage",
    "eysh_threshold_500",
    "eysh_threshold_600",
    "eysh_threshold_700",
    "eysh_threshold_800",
    "created_at",
    "updated_at"
  }

  // -----------------------------------------------------------------------
  // Locating statements
  // -----------------------------------------------------------------------

  /**
   * The statement pattern tried at the front of `s`: the keyword, optional
   * whitespace, a parenthesised non-empty column list ending at the first `)`,
   * optional whitespace, `VALUES`, optional whitespace, `(`, then at least one
   * character up to the first `;`, which must directly follow a `)`.
   * The result is the length of the match.
   */
  function MatchAt(s: string): (r: Option<nat>)
    ensures !OccursAt(s, 0, Keyword) ==> r == None
    ensures r.Some? ==> |Keyword| < r.value <= |s| && OccursAt(s, 0, Keyword)
    ensures r.Some? ==> s[r.value - 2] == ')' && s[r.value - 1] == ';'
  {
    if !OccursAt(s, 0, Keyword) then None
    else
      var p := SkipWhile(s, |Keyword|, IsPyWhitespace);
      ColumnGroupEnds(s, p);
      ColumnGroup(s, p)
  }

  /** `\(([^)]+)\)` at `p`: a non-empty column list closed by the first `)`. */
  function ColumnGroup(s: string, p: nat): (r: Option<nat>)
    requires p <= |s|
  {
    if p == |s| || s[p] != '(' then None
    else
      var k := FindFrom(s, p + 1, ')');
      if k == |s| || k == p + 1 then None
      else ValuesKeyword(s, SkipWhile(s, k + 1, IsPyWhitespace))
  }

  /** `VALUES\s*` at `w`. */
  function ValuesKeyword(s: string, w: nat): (r: Option<nat>)
    requires w <= |s|
  {
    if !OccursAt(s, w, ValuesWord) then None
    else ValueGroup(s, SkipWhile(s, w + |ValuesWord|, IsPyWhitespace))
  }

  /** `\(([^;]+)\);` at `v`: at least one character inside, and the first `;`
      directly after a `)`. */
  function ValueGroup(s: string, v: nat): (r: Option<nat>)
    requires v <= |s|
  {
    if v == |s| || s[v] != '(' then None
    else
      var f := FindFrom(s, v + 1, ';');
      if f == |s| || f < v + 3 || s[f - 1] != ')' then None
      else Some(f + 1)
  }

  /** A match found by a part of the pattern that started at `from` ends
      with `);`, at least four characters later. */
  predicate EndsStatement(s: string, from: nat, r: Option<nat>) {
    r.Some? ==> from + 4 <= r.value <= |s| && s[r.value - 2] == ')' && s[r.value - 1] == ';'
  }

  lemma ColumnGroupEnds(s: string, p: nat)
    requires p <= |s|
    ensures EndsStatement(s, p, ColumnGroup(s, p))
  {
    if p < |s| && s[p] == '(' {
      var k := FindFrom(s, p + 1, ')');
      if k < |s| && k != p + 1 {
        var w := SkipWhile(s, k + 1, IsPyWhitespace);
        ValuesKeywordEnds(s, w);
        EndsLater(s, p, w, ValuesKeyword(s, w));
      }
    }
  }

  lemma EndsLater(s: string, p: nat, w: nat, r: Option<nat>)
    requires p <= w && EndsStatement(s, w, r)
    ensures EndsStatement(s, p, r)
  {
  }

  lemma ValuesKeywordEnds(s: string, w: nat)
    requires w <= |s|
    ensures EndsStatement(s, w, ValuesKeyword(s, w))
  {
    if OccursAt(s, w, ValuesWord) {
      var v := SkipWhile(s, w + |ValuesWord|, IsPyWhitespace);
      ValueGroupEnds(s, v);
      EndsLater(s, w, v, ValueGroup(s, v));
    }
  }

  lemma ValueGroupEnds(s: string, v: nat)
    requires v <= |s|
    ensures EndsStatement(s, v, ValueGroup(s, v))
  {
  }

  /**
   * `re.sub` with the statement pattern: scan from the left; where a statement
   * matches, replace it and continue after it; elsewhere copy one character.
   */
  function Transform(s: string): (r: string)
    decreases |s|
  {
    if s == [] then []
    else
      match MatchAt(s)
      case Some(e) => ReplaceInsert(s[..e]) + Transform(s[e..])
      case None => [s[0]] + Transform(s[1..])
  }

  // -----------------------------------------------------------------------
  // The searches inside a matched statement
  // -----------------------------------------------------------------------

  /** `\(([^)]+)\)\s*VALUES` tried at position `p`: the text between `(` and
      the first `)`, which must be non-empty and followed by `VALUES`. */
  function ColsAt(m: string, p: nat): (r: Option<string>)
    requires p <= |m|
    ensures r.Some? ==> r.value != [] && ')' !in r.value
  {
    if p == |m| || m[p] != '(' then None
    else
      var k := FindFrom(m, p + 1, ')');
      if k == |m| || k == p + 1 then None
      else
        var w := SkipWhile(m, k + 1, IsPyWhitespace);
        if OccursAt(m, w, ValuesWord) then Some(m[p + 1..k]) else None
  }

  /** The leftmost success of `ColsAt` at or after `from`. */
  function ColsSearch(m: string, from: nat): Option<string>
    requires from <= |m|
    decreases |m| - from
  {
    if ColsAt(m, from).Some? then ColsAt(m, from)
    else if from == |m| then None
    else ColsSearch(m, from + 1)
  }

  /** `VALUES\s*\((.+)\)` tried at position `q` (dot matching newlines): after
      `VALUES`, whitespace and `(`, everything up to the LAST `)` of the text,
      which must leave at least one character. */
  function ValsAt(m: string, q: nat): (r: Option<string>)
    requires q <= |m|
  {
    if !OccursAt(m, q, ValuesWord) then None
    else
      var v := SkipWhile(m, q + |ValuesWord|, IsPyWhitespace);
      if v == |m| || m[v] != '(' then None
      else
        match FindLast(m, ')')
        case None => None
        case Some(l) => if l >= v + 2 then Some(m[v + 1..l]) else None
  }

  function ValsSearch(m: string, from: nat): Option<string>
    requires from <= |m|
    decreases |m| - from
  {
    if ValsAt(m, from).Some? then ValsAt(m, from)
    else if from == |m| then None
    else ValsSearch(m, from + 1)
  }

  /** A search returns the first position where its pattern succeeds. */
  lemma {:induction false} ColsSearchLeftmost(m: string, from: nat, p: nat)
    requires from <= p <= |m|
    requires ColsAt(m, p).Some?
    requires forall q | from <= q < p :: ColsAt(m, q).None?
    ensures ColsSearch(m, from) == ColsAt(m, p)
    decreases p - from
  {
    if from < p {
      ColsSearchLeftmost(m, from + 1, p);
    }
  }

  lemma {:induction false} ValsSearchLeftmost(m: string, from: nat, p: nat)
    requires from <= p <= |m|
    requires ValsAt(m, p).Some?
    requires forall q | from <= q < p :: ValsAt(m, q).None?
    ensures ValsSearch(m, from) == ValsAt(m, p)
    decreases p - from
  {
    if from < p {
      ValsSearchLeftmost(m, from + 1, p);
    }
  }

  // -----------------------------------------------------------------------
  // Columns, pairing and filtering
  // -----------------------------------------------------------------------

  /** The non-empty strings of `xs`, in order. */
  function DropEmpty(xs: seq<string>): (r: seq<string>)
    ensures forall i | 0 <= i < |r| :: r[i] != []
    ensures forall x :: x in r <==> x in xs && x != []
    ensures (forall i | 0 <= i < |xs| :: xs[i] != []) ==> r == xs
  {
    if xs == [] then []
    else
      var init := DropEmpty(xs[..|xs| - 1]);
      var x := xs[|xs| - 1];
      SplitLast(xs);
      if x == [] then init else init + [x]
  }

  /** The column list: split at every comma, strip each name, drop empty ones. */
  function Columns(t: string): seq<string> {
    DropEmpty(StripAll(SplitOn(t, ',')))
  }

  /** Every column is a non-empty stripped name without commas, and without
      `)` when the column text has none. */
  lemma ColumnsShape(t: string)
    ensures forall x | x in Columns(t) :: x != [] && IsStripped(x, IsPyWhitespace) && ',' !in x
    ensures ')' !in t ==> forall x | x in Columns(t) :: ')' !in x
  {
    var parts := SplitOn(t, ',');
    StrippedShape(t, parts);
  }

  lemma StrippedShape(t: string, parts: seq<string>)
    requires Join(parts, [',']) == t && forall i | 0 <= i < |parts| :: ',' !in parts[i]
    ensures forall x | x in StripAll(parts) :: IsStripped(x, IsPyWhitespace) && ',' !in x && (')' !in t ==> ')' !in x)
  {
    var stripped := StripAll(parts);
    forall i | 0 <= i < |stripped|
      ensures IsStripped(stripped[i], IsPyWhitespace) && ',' !in stripped[i] && (')' !in t ==> ')' !in stripped[i])
    {
      StripInside(parts[i], IsPyWhitespace);
      if ')' !in t {
        JoinPartsExclude(parts, [','], ')', i);
      }
    }
  }

  /** Every character of a stripped string comes from the original. */
  lemma StripInside(s: string, ws: char -> bool)
    ensures forall c | c in Strip(s, ws) :: c in s
  {
    var k := LeadingCount(s, ws);
    var r := Strip(s, ws);
    forall c | c in r
      ensures c in s
    {
      var j :| 0 <= j < |r| && r[j] == c;
      assert s[k + j] == c;
    }
  }

  /** A character absent from a join is absent from every part. */
  lemma JoinPartsExclude(parts: seq<string>, sep: string, c: char, i: nat)
    requires i < |parts| && c !in Join(parts, sep)
    ensures c !in parts[i]
  {
    JoinHasPart(parts, sep, i);
  }

  lemma {:induction false} JoinHasPart(parts: seq<string>, sep: string, i: nat)
    requires i < |parts|
    ensures forall c | c in parts[i] :: c in Join(parts, sep)
  {
    var n := |parts|;
    if n > 1 && i < n - 1 {
      JoinHasPart(parts[..n - 1], sep, i);
    }
  }

  /** Python's `zip`: pairs by position, as many as the shorter list has. */
  function Zip<A, B>(a: seq<A>, b: seq<B>): (r: seq<(A, B)>)
    ensures |r| == if |a| <= |b| then |a| else |b|
    ensures forall i | 0 <= i < |r| :: r[i] == (a[i], b[i])
  {
    if a == [] || b == [] then []
    else [(a[0], b[0])] + Zip(a[1..], b[1..])
  }

  /** The pairs whose column is still in the schema, in order. */
  function KeepCurrent(pairs: seq<(string, string)>): (r: seq<(string, string)>)
    ensures forall i | 0 <= i < |r| :: r[i].0 !in Deprecated
    ensures forall x :: x in r <==> x in pairs && x.0 !in Deprecated
    ensures (forall i | 0 <= i < |pairs| :: pairs[i].0 !in Deprecated) ==> r == pairs
  {
    if pairs == [] then []
    else
      var init := KeepCurrent(pairs[..|pairs| - 1]);
      var x := pairs[|pairs| - 1];
      SplitLast(pairs);
      if x.0 in Deprecated then init else init + [x]
  }

  /** Filtering keeps the relative order: it works piece by piece. */
  lemma {:induction false} KeepCurrentAppend(a: seq<(string, string)>, b: seq<(string, string)>)
    ensures KeepCurrent(a + b) == KeepCurrent(a) + KeepCurrent(b)
    decreases |b|
  {
    if b == [] {
      assert a + b == a;
    } else {
      var front, x := b[..|b| - 1], b[|b| - 1];
      var tail := if x.0 in Deprecated then [] else [x];
      calc {
        KeepCurrent(a + b);
        { assert a + b == (a + front) + [x]; }
        KeepCurrent((a + front) + [x]);
        { KeepCurrentSnoc(a + front, x); }
        KeepCurrent(a + front) + tail;
        { KeepCurrentAppend(a, front); }
        KeepCurrent(a) + KeepCurrent(front) + tail;
        { KeepCurrentSnoc(front, x); assert b == front + [x]; }
        KeepCurrent(a) + KeepCurrent(b);
      }
    }
  }

  lemma KeepCurrentSnoc(xs: seq<(string, string)>, x: (string, string))
    ensures KeepCurrent(xs + [x]) == KeepCurrent(xs) + (if x.0 in Deprecated then [] else [x])
  {
    assert (xs + [x])[..|xs|] == xs;
  }

  function Firsts(pairs: seq<(string, string)>): (r: seq<string>)
    ensures |r| == |pairs| && forall i | 0 <= i < |pairs| :: r[i] == pairs[i].0
  {
    seq(|pairs|, i requires 0 <= i < |pairs| => pairs[i].0)
  }

  function Seconds(pairs: seq<(string, string)>): (r: seq<string>)
    ensures |r| == |pairs| && forall i | 0 <= i < |pairs| :: r[i] == pairs[i].1
  {
    seq(|pairs|, i requires 0 <= i < |pairs| => pairs[i].1)
  }

  // -----------------------------------------------------------------------
  // Parsing and rendering one statement
  // -----------------------------------------------------------------------

  /** What the replacement function reads from a matched statement: the pairs
      it keeps, or None when one of its searches fails. */
  function Parse(m: string): Option<seq<(string, string)>> {
    match ColsSearch(m, 0)
    case None => None
    case Some(ct) =>
      match ValsSearch(m, 0)
      case None => None
      case Some(vt) => Some(KeepCurrent(Zip(Columns(ct), Values(vt))))
  }

  /** What any parse guarantees of the pairs it keeps. */
  predicate ParsedPair(c: string, v: string) {
    c != [] && IsStripped(c, IsPyWhitespace) && ',' !in c && ')' !in c && c !in Deprecated && IsStripped(v, IsPyWhitespace)
  }

  lemma ParseShape(m: string)
    requires Parse(m).Some?
    ensures forall x | x in Parse(m).value :: ParsedPair(x.0, x.1)
  {
    var ct := ColsSearch(m, 0).value;
    var vt := ValsSearch(m, 0).value;
    ColsSearchFacts(m, 0);
    ColumnsShape(ct);
    ValuesStripped(vt);
    PairsShape(Columns(ct), Values(vt));
  }

  lemma ValuesStripped(vt: string)
    ensures forall v | v in Values(vt) :: IsStripped(v, IsPyWhitespace)
  {
    var vals := Values(vt);
    forall v | v in vals
      ensures IsStripped(v, IsPyWhitespace)
    {
      var i :| 0 <= i < |vals| && vals[i] == v;
      assert v == PyStrip(Pieces(vt)[i]);
    }
  }

  lemma PairsShape(cols: seq<string>, vals: seq<string>)
    requires forall x | x in cols :: x != [] && IsStripped(x, IsPyWhitespace) && ',' !in x && ')' !in x
    requires forall v | v in vals :: IsStripped(v, IsPyWhitespace)
    ensures forall x | x in KeepCurrent(Zip(cols, vals)) :: ParsedPair(x.0, x.1)
  {
    var pairs := Zip(cols, vals);
    forall x | x in KeepCurrent(pairs)
      ensures ParsedPair(x.0, x.1)
    {
      var i :| 0 <= i < |pairs| && pairs[i] == x;
      assert cols[i] in cols && vals[i] in vals;
    }
  }

  lemma {:induction false} ColsSearchFacts(m: string, from: nat)
    requires from <= |m|
    ensures ColsSearch(m, from).Some? ==> ')' !in ColsSearch(m, from).value
    decreases |m| - from
  {
    if ColsAt(m, from).None? && from < |m| {
      ColsSearchFacts(m, from + 1);
    }
  }

  /** The canonical layout of a statement. */
  function Render(pairs: seq<(string, string)>): string {
    Layout(Join(Firsts(pairs), Sep), Join(Seconds(pairs), Sep))
  }

  /** The layout around an already joined column list and value list. */
  function Layout(jc: string, jv: string): string {
    Header + jc + Middle + jv + Footer
  }

  /** The replacement function: a statement with no surviving pair, or one
      whose searches fail, is returned as it was. */
  function ReplaceInsert(m: string): string {
    match Parse(m)
    case None => m
    case Some(kept) => if kept == [] then m else Render(kept)
  }

  // -----------------------------------------------------------------------
  // The canonical layout reads back as what was written
  // -----------------------------------------------------------------------

  /** A column the layout can carry through another pass unchanged. */
  predicate CanonicalColumn(c: string) {
    && c != [] && IsStripped(c, IsPyWhitespace) && ',' !in c && ')' !in c
    && !Contains(c, ValuesWord) && c !in Deprecated
  }

  /** A value the layout can carry through another pass unchanged: balanced
      quotes and parentheses, and no `;`. */
  predicate CanonicalValue(v: string) {
    IsStripped(v, IsPyWhitespace) && Closed(v) && ';' !in v
  }

  /** What the layout can carry: at least one pair, each column and value of
      a form another pass reads back. */
  predicate Laid(pairs: seq<(string, string)>) {
    && |pairs| >= 1
    && (forall i | 0 <= i < |pairs| :: CanonicalColumn(pairs[i].0) && CanonicalValue(pairs[i].1))
  }

  /** A laid-out statement that another pass keeps whole: the script drops a
      final value that strips to nothing, so the last value must not be empty. */
  predicate Canonical(pairs: seq<(string, string)>) {
    Laid(pairs) && pairs[|pairs| - 1].1 != []
  }

  /** The text between the parentheses of a rendered list, as comma pieces. */
  function Framed(xs: seq<string>): seq<string>
    requires |xs| >= 1
  {
    AppendLast(LeadAll(xs, Indent), "\n")
  }

  lemma FramedJoin(xs: seq<string>)
    requires |xs| >= 1
    ensures Indent + Join(xs, Sep) + "\n" == Join(Framed(xs), ",")
  {
    assert Sep == "," + Indent;
    JoinLead(Indent, xs, ",");
    JoinTrail(LeadAll(xs, Indent), "\n", ",");
  }

  /**
   * The character facts the statement pattern and the two searches rely on,
   * for a statement whose column list ends before index `c0` + 1 and which
   * ends at index `n`.
   */
  predicate Shaped(s: string, c0: nat, n: nat) {
    && 29 <= c0 && c0 + 19 <= n <= |s|
    && OccursAt(s, 0, Keyword) && s[22] == ' ' && s[23] == '('
    && (forall i | 24 <= i <= c0 :: s[i] != ')')
    && s[c0 + 1] == ')' && s[c0 + 2] == ' '
    && OccursAt(s, c0 + 3, ValuesWord) && s[c0 + 9] == ' ' && s[c0 + 10] == '('
    && (forall i | c0 + 11 <= i < n - 1 :: s[i] != ';')
    && s[n - 2] == ')' && s[n - 1] == ';'
  }

  /** Where each part of the statement pattern is found in a shaped statement. */
  lemma ShapedParts(s: string, c0: nat, n: nat)
    requires Shaped(s, c0, n)
    ensures OccursAt(s, 0, Keyword) && 23 < |s| && SkipWhile(s, |Keyword|, IsPyWhitespace) == 23 && s[23] == '('
    ensures c0 + 1 < |s| && FindFrom(s, 24, ')') == c0 + 1 && c0 + 1 != 24
    ensures c0 + 3 <= |s| && SkipWhile(s, c0 + 2, IsPyWhitespace) == c0 + 3 && OccursAt(s, c0 + 3, ValuesWord)
    ensures c0 + 10 < |s| && SkipWhile(s, c0 + 3 + |ValuesWord|, IsPyWhitespace) == c0 + 10 && s[c0 + 10] == '('
    ensures n - 1 < |s| && FindFrom(s, c0 + 11, ';') == n - 1 && n - 1 >= c0 + 13 && s[n - 2] == ')'
  {
    assert s[c0 + 3..c0 + 9][0] == 'V';
    SkipWhileIs(s, 22, IsPyWhitespace, 23);
    FindFromIs(s, 24, ')', c0 + 1);
    SkipWhileIs(s, c0 + 2, IsPyWhitespace, c0 + 3);
    SkipWhileIs(s, c0 + 9, IsPyWhitespace, c0 + 10);
    FindFromIs(s, c0 + 11, ';', n - 1);
  }

  /** The statement pattern succeeds once each of its parts is located. */
  lemma MatchAtIs(s: string, p: nat, k: nat, w: nat, v: nat, f: nat)
    requires OccursAt(s, 0, Keyword)
    requires p < |s| && SkipWhile(s, |Keyword|, IsPyWhitespace) == p && s[p] == '('
    requires k < |s| && FindFrom(s, p + 1, ')') == k && k != p + 1
    requires w <= |s| && SkipWhile(s, k + 1, IsPyWhitespace) == w && OccursAt(s, w, ValuesWord)
    requires v < |s| && SkipWhile(s, w + |ValuesWord|, IsPyWhitespace) == v && s[v] == '('
    requires f < |s| && FindFrom(s, v + 1, ';') == f && f >= v + 3 && s[f - 1] == ')'
    ensures MatchAt(s) == Some(f + 1)
  {
    ValueGroupIs(s, v, f);
    ValuesKeywordIs(s, w, v);
    ColumnGroupIs(s, p, k, w);
  }

  lemma ColumnGroupIs(s: string, p: nat, k: nat, w: nat)
    requires p < |s| && s[p] == '('
    requires k < |s| && FindFrom(s, p + 1, ')') == k && k != p + 1
    requires w <= |s| && SkipWhile(s, k + 1, IsPyWhitespace) == w
    ensures ColumnGroup(s, p) == ValuesKeyword(s, w)
  {
  }

  lemma ValuesKeywordIs(s: string, w: nat, v: nat)
    requires w <= |s| && OccursAt(s, w, ValuesWord)
    requires v <= |s| && SkipWhile(s, w + |ValuesWord|, IsPyWhitespace) == v
    ensures ValuesKeyword(s, w) == ValueGroup(s, v)
  {
  }

  lemma ValueGroupIs(s: string, v: nat, f: nat)
    requires v < |s| && s[v] == '('
    requires f < |s| && FindFrom(s, v + 1, ';') == f && f >= v + 3 && s[f - 1] == ')'
    ensures ValueGroup(s, v) == Some(f + 1)
  {
  }

  /** The column search finds the text between the first `(` and the first
      `)` when the keyword, whitespace, `(`, a column list, `)`, whitespace and
      `VALUES` open the statement. */
  lemma ColsFound(m: string, c0: nat)
    requires OccursAt(m, 0, Keyword) && 23 < |m| && SkipWhile(m, |Keyword|, IsPyWhitespace) == 23 && m[23] == '('
    requires c0 + 1 < |m| && FindFrom(m, 24, ')') == c0 + 1 && c0 + 1 != 24
    requires c0 + 3 <= |m| && SkipWhile(m, c0 + 2, IsPyWhitespace) == c0 + 3 && OccursAt(m, c0 + 3, ValuesWord)
    ensures ColsSearch(m, 0) == Some(m[24..c0 + 1])
  {
    ColsNoneBefore(m);
    ColsSearchLeftmost(m, 0, 23);
  }

  /** No `(` occurs before the one after the keyword. */
  lemma ColsNoneBefore(m: string)
    requires OccursAt(m, 0, Keyword) && 23 < |m| && SkipWhile(m, |Keyword|, IsPyWhitespace) == 23
    ensures forall q | 0 <= q < 23 :: ColsAt(m, q).None?
  {
    assert '(' !in Keyword;
    forall q | 0 <= q < 23
      ensures m[q] != '('
    {
      if q < 22 {
        assert m[q] == m[0..22][q];
      }
    }
  }

  /** The last `)` of a statement ending in `);`. */
  lemma LastParen(m: string)
    requires |m| >= 2 && m[|m| - 2] == ')' && m[|m| - 1] == ';'
    ensures FindLast(m, ')') == Some(|m| - 2)
  {
    assert m[|m| - 2] in m;
  }

  /** The value search finds the text between the `(` after `VALUES` and the
      closing `)` of a statement ending in `);`, when no earlier `VALUES` occurs. */
  lemma ValsFound(m: string, c0: nat)
    requires c0 + 12 < |m| - 2 && OccursAt(m, c0 + 3, ValuesWord)
    requires SkipWhile(m, c0 + 3 + |ValuesWord|, IsPyWhitespace) == c0 + 10 && m[c0 + 10] == '('
    requires m[|m| - 2] == ')' && m[|m| - 1] == ';'
    requires forall q | 0 <= q < c0 + 3 :: !OccursAt(m, q, ValuesWord)
    ensures ValsSearch(m, 0) == Some(m[c0 + 11..|m| - 2])
  {
    LastParen(m);
    ValsNoneBefore(m, c0 + 3);
    ValsSearchLeftmost(m, 0, c0 + 3);
  }

  /** Where `VALUES` does not occur, the value search cannot start. */
  lemma ValsNoneBefore(m: string, p: nat)
    requires p <= |m|
    requires forall q | 0 <= q < p :: !OccursAt(m, q, ValuesWord)
    ensures forall q | 0 <= q < p :: ValsAt(m, q).None?
  {
  }

  /** The canonical layout, followed by any text, is shaped. */
  lemma LayoutShaped(jc: string, jv: string, rest: string)
    requires ')' !in jc && ';' !in jv
    ensures Shaped(Layout(jc, jv) + rest, |Header| + |jc|, |Layout(jc, jv)|)
  {
    FixedTexts();
    assert Layout(jc, jv) + rest == Header + jc + Middle + jv + Footer + rest;
    BlocksShaped(Layout(jc, jv) + rest, Header, jc, Middle, jv, Footer, rest);
  }

  /** The characters of the fixed texts that the statement pattern looks at. */
  lemma FixedTexts()
    ensures |Header| == 29 && Header[..22] == Keyword && Header[22] == ' ' && Header[23] == '('
    ensures forall i | 24 <= i < 29 :: Header[i] != ')'
    ensures |Middle| == 16 && Middle[0] != ')' && Middle[1] == ')' && Middle[2] == ' '
    ensures Middle[3..9] == ValuesWord && Middle[9] == ' ' && Middle[10] == '('
    ensures forall i | 11 <= i < 16 :: Middle[i] != ';'
    ensures |Footer| == 3 && Footer[0] != ';' && Footer[1] == ')' && Footer[2] == ';'
  {
    assert Header == Keyword + " (" + Indent;
    assert Middle == "\n) " + ValuesWord + " (" + Indent;
  }

  /** A statement assembled from blocks with the fixed texts' characters is shaped. */
  lemma BlocksShaped(s: string, h: string, jc: string, mid: string, jv: string, ft: string, rest: string)
    requires s == h + jc + mid + jv + ft + rest
    requires ')' !in jc && ';' !in jv
    requires |h| == 29 && h[..22] == Keyword && h[22] == ' ' && h[23] == '('
    requires forall i | 24 <= i < 29 :: h[i] != ')'
    requires |mid| == 16 && mid[0] != ')' && mid[1] == ')' && mid[2] == ' '
    requires mid[3..9] == ValuesWord && mid[9] == ' ' && mid[10] == '('
    requires forall i | 11 <= i < 16 :: mid[i] != ';'
    requires |ft| == 3 && ft[0] != ';' && ft[1] == ')' && ft[2] == ';'
    ensures Shaped(s, |h| + |jc|, |h| + |jc| + |mid| + |jv| + |ft|)
  {
    var c0 := |h| + |jc|;
    var n := c0 + |mid| + |jv| + |ft|;
    assert s[..22] == h[..22];
    forall i | 24 <= i <= c0
      ensures s[i] != ')'
    {
      if i < 29 {
        assert s[i] == h[i];
      } else if i < c0 {
        assert s[i] == jc[i - 29];
      } else {
        assert s[i] == mid[0];
      }
    }
    forall j | 0 <= j < 6
      ensures s[c0 + 3..c0 + 9][j] == mid[3..9][j]
    {
      assert s[c0 + 3 + j] == mid[3 + j];
    }
    assert s[c0 + 3..c0 + 9] == mid[3..9];
    forall i | c0 + 11 <= i < n - 1
      ensures s[i] != ';'
    {
      if i < c0 + 16 {
        assert s[i] == mid[i - c0];
      } else if i < c0 + 16 + |jv| {
        assert s[i] == jv[i - c0 - 16];
      } else {
        assert s[i] == ft[i - c0 - 16 - |jv|];
      }
    }
  }

  /** The two lists sit between the fixed texts of the layout. */
  lemma LayoutLists(jc: string, jv: string)
    ensures var m, c0 := Layout(jc, jv), |Header| + |jc|;
      && m[24..c0 + 1] == Indent + jc + "\n"
      && m[c0 + 11..|m| - 2] == Indent + jv + "\n"
  {
    var m, c0 := Layout(jc, jv), |Header| + |jc|;
    assert |Header| == 29 && |Middle| == 16 && |Footer| == 3;
    assert m[24..c0 + 1] == Indent + jc + "\n";
    assert m[c0 + 11..|m| - 2] == Indent + jv + "\n";
  }

  /** No `VALUES` occurs in a laid-out statement before the one of the layout. */
  lemma NoValuesBefore(jc: string, jv: string)
    requires !Contains(jc, ValuesWord)
    ensures forall q | 0 <= q < |Header| + |jc| + 3 :: !OccursAt(Layout(jc, jv), q, ValuesWord)
  {
    var r := Layout(jc, jv);
    var c0 := |Header| + |jc|;
    var a := Header + jc;
    assert 'V' !in Header;
    FirstCharAbsent(Header, ValuesWord);
    assert Header[|Header| - 1] == ' ';
    ConcatAvoids(Header, jc, ValuesWord);
    assert r == a + Middle + jv + Footer;
    forall q | 0 <= q < c0 + 3
      ensures !OccursAt(r, q, ValuesWord)
    {
      if q + 6 <= c0 {
        assert r[q..q + 6] == a[q..q + 6];
        assert !OccursAt(a, q, ValuesWord);
      } else if q + 6 <= |r| {
        var t := if q < c0 then c0 else q;
        assert r[t] == Middle[t - c0];
        assert r[t] !in ValuesWord;
        assert r[q..q + 6][t - q] == r[t];
      }
    }
  }

  /** The layout of two lists matches the statement pattern exactly, whatever follows it. */
  lemma LayoutMatches(jc: string, jv: string, rest: string)
    requires ')' !in jc && ';' !in jv
    ensures MatchAt(Layout(jc, jv) + rest) == Some(|Layout(jc, jv)|)
  {
    var s, c0, n := Layout(jc, jv) + rest, |Header| + |jc|, |Layout(jc, jv)|;
    LayoutParts(jc, jv, rest);
    MatchAtIs(s, 23, c0 + 1, c0 + 3, c0 + 10, n - 1);
  }

  lemma LayoutParts(jc: string, jv: string, rest: string)
    requires ')' !in jc && ';' !in jv
    ensures var s, c0, n := Layout(jc, jv) + rest, |Header| + |jc|, |Layout(jc, jv)|;
      && OccursAt(s, 0, Keyword) && 23 < |s| && SkipWhile(s, |Keyword|, IsPyWhitespace) == 23 && s[23] == '('
      && c0 + 1 < |s| && FindFrom(s, 24, ')') == c0 + 1 && c0 + 1 != 24
      && c0 + 3 <= |s| && SkipWhile(s, c0 + 2, IsPyWhitespace) == c0 + 3 && OccursAt(s, c0 + 3, ValuesWord)
      && c0 + 10 < |s| && SkipWhile(s, c0 + 3 + |ValuesWord|, IsPyWhitespace) == c0 + 10 && s[c0 + 10] == '('
      && n - 1 < |s| && FindFrom(s, c0 + 11, ';') == n - 1 && n - 1 >= c0 + 13 && s[n - 2] == ')'
  {
    LayoutShaped(jc, jv, rest);
    ShapedParts(Layout(jc, jv) + rest, |Header| + |jc|, |Layout(jc, jv)|);
  }

  /** A rendered statement matches the statement pattern exactly, whatever follows it. */
  lemma RenderMatches(pairs: seq<(string, string)>, rest: string)
    requires Laid(pairs)
    ensures MatchAt(Render(pairs) + rest) == Some(|Render(pairs)|)
  {
    JoinExcludes(Firsts(pairs), Sep, ')');
    JoinExcludes(Seconds(pairs), Sep, ';');
    LayoutMatches(Join(Firsts(pairs), Sep), Join(Seconds(pairs), Sep), rest);
  }

  /** The column search of the replacement function finds the laid-out column list. */
  lemma ColsOfLayout(jc: string, jv: string)
    requires ')' !in jc && ';' !in jv
    ensures ColsSearch(Layout(jc, jv), 0) == Some(Indent + jc + "\n")
  {
    var m := Layout(jc, jv);
    LayoutParts(jc, jv, []);
    assert m + [] == m;
    ColsFound(m, |Header| + |jc|);
    LayoutLists(jc, jv);
  }

  /** The value search finds the laid-out value list. */
  lemma ValsOfLayout(jc: string, jv: string)
    requires ')' !in jc && ';' !in jv && !Contains(jc, ValuesWord)
    ensures ValsSearch(Layout(jc, jv), 0) == Some(Indent + jv + "\n")
  {
    LayoutValues(jc, jv);
    ValsFound(Layout(jc, jv), |Header| + |jc|);
    LayoutLists(jc, jv);
  }

  /** What the value search needs of the layout. */
  lemma LayoutValues(jc: string, jv: string)
    requires ')' !in jc && ';' !in jv && !Contains(jc, ValuesWord)
    ensures var m, c0 := Layout(jc, jv), |Header| + |jc|;
      && c0 + 12 < |m| - 2 && OccursAt(m, c0 + 3, ValuesWord)
      && SkipWhile(m, c0 + 3 + |ValuesWord|, IsPyWhitespace) == c0 + 10 && m[c0 + 10] == '('
      && m[|m| - 2] == ')' && m[|m| - 1] == ';'
      && forall q | 0 <= q < c0 + 3 :: !OccursAt(m, q, ValuesWord)
  {
    var m := Layout(jc, jv);
    LayoutParts(jc, jv, []);
    assert m + [] == m;
    NoValuesBefore(jc, jv);
  }

  /** Comma pieces that each strip to a non-empty column give the columns back. */
  lemma ColumnsOfParts(t: string, f: seq<string>, cols: seq<string>)
    requires |f| >= 1 && |f| == |cols| && t == Join(f, ",")
    requires forall i | 0 <= i < |f| :: ',' !in f[i] && PyStrip(f[i]) == cols[i] && cols[i] != []
    ensures Columns(t) == cols
  {
    assert [','] == ",";
    SplitOnJoin(f, ',');
    StripAllParts(f, cols);
  }

  /** One piece of a rendered list: the indent, the item, and after the last
      item the closing line break. */
  lemma FramedPart(xs: seq<string>, i: nat)
    requires i < |xs|
    requires IsStripped(xs[i], IsPyWhitespace)
    ensures var f, tail := Framed(xs)[i], (if i == |xs| - 1 then "\n" else "");
      && f == Indent + xs[i] + tail
      && AllChars(Indent, IsPyWhitespace) && AllChars(tail, IsPyWhitespace)
      && PyStrip(f) == xs[i]
      && (',' !in xs[i] ==> ',' !in f)
  {
    var tail := if i == |xs| - 1 then "\n" else "";
    var f := Framed(xs)[i];
    assert f == Indent + xs[i] + tail;
    assert ',' !in Indent && ',' !in tail;
    StripSurrounded(Indent, xs[i], tail, IsPyWhitespace);
  }

  /** Splitting a rendered column list gives the columns back. */
  lemma ColumnsOfFramed(cols: seq<string>)
    requires |cols| >= 1
    requires forall i | 0 <= i < |cols| :: cols[i] != [] && IsStripped(cols[i], IsPyWhitespace) && ',' !in cols[i]
    ensures Columns(Indent + Join(cols, Sep) + "\n") == cols
  {
    var f := Framed(cols);
    FramedJoin(cols);
    forall i | 0 <= i < |f|
      ensures ',' !in f[i] && PyStrip(f[i]) == cols[i] && cols[i] != []
    {
      FramedPart(cols, i);
    }
    ColumnsOfParts(Indent + Join(cols, Sep) + "\n", f, cols);
  }

  /** Splitting a rendered value list gives the values back. */
  lemma ValuesOfFramed(vals: seq<string>)
    requires |vals| >= 1 && vals[|vals| - 1] != []
    requires forall i | 0 <= i < |vals| :: CanonicalValue(vals[i])
    ensures Values(Indent + Join(vals, Sep) + "\n") == vals
  {
    var f := Framed(vals);
    FramedJoin(vals);
    FramedClosed(vals);
    ClosedJoinValues(f, vals);
  }

  /** Each comma piece of a rendered value list is the value, padded with
      whitespace, and reads as one closed value. */
  lemma FramedClosed(vals: seq<string>)
    requires |vals| >= 1
    requires forall i | 0 <= i < |vals| :: CanonicalValue(vals[i])
    ensures ReadsAs(Framed(vals), vals)
  {
    var f := Framed(vals);
    forall i | 0 <= i < |f|
      ensures Closed(f[i]) && PyStrip(f[i]) == vals[i]
    {
      FramedPart(vals, i);
      ClosedPadded(Indent, vals[i], if i == |vals| - 1 then "\n" else "");
    }
  }

  lemma ParseFrom(m: string, ct: string, vt: string)
    requires ColsSearch(m, 0) == Some(ct) && ValsSearch(m, 0) == Some(vt)
    ensures Parse(m) == Some(KeepCurrent(Zip(Columns(ct), Values(vt))))
  {
  }

  lemma ZipUnzip(pairs: seq<(string, string)>)
    ensures Zip(Firsts(pairs), Seconds(pairs)) == pairs
  {
  }

  /** Reading the layout of two lists back gives the lists, paired and filtered. */
  lemma ParseLayout(cols: seq<string>, vals: seq<string>)
    requires |cols| >= 1 && |vals| >= 1 && vals[|vals| - 1] != []
    requires ')' !in Join(cols, Sep) && ';' !in Join(vals, Sep) && !Contains(Join(cols, Sep), ValuesWord)
    requires forall i | 0 <= i < |cols| :: cols[i] != [] && IsStripped(cols[i], IsPyWhitespace) && ',' !in cols[i]
    requires forall i | 0 <= i < |vals| :: CanonicalValue(vals[i])
    ensures Parse(Layout(Join(cols, Sep), Join(vals, Sep))) == Some(KeepCurrent(Zip(cols, vals)))
  {
    var jc, jv := Join(cols, Sep), Join(vals, Sep);
    ColsOfLayout(jc, jv);
    ValsOfLayout(jc, jv);
    ColumnsOfFramed(cols);
    ValuesOfFramed(vals);
    ParseFrom(Layout(jc, jv), Indent + jc + "\n", Indent + jv + "\n");
  }

  /** Reading a canonical statement back gives exactly the pairs it was written from. */
  lemma ParseRender(pairs: seq<(string, string)>)
    requires Canonical(pairs)
    ensures Parse(Render(pairs)) == Some(pairs)
  {
    CanonicalParts(pairs);
    ParseLayout(Firsts(pairs), Seconds(pairs));
    ZipUnzip(pairs);
  }

  /** What the layout needs of the joined lists, from what each pair provides. */
  lemma CanonicalParts(pairs: seq<(string, string)>)
    requires Canonical(pairs)
    ensures var cols, vals := Firsts(pairs), Seconds(pairs);
      && ')' !in Join(cols, Sep) && ';' !in Join(vals, Sep) && !Contains(Join(cols, Sep), ValuesWord)
      && (forall i | 0 <= i < |cols| :: cols[i] != [] && IsStripped(cols[i], IsPyWhitespace) && ',' !in cols[i])
      && (forall i | 0 <= i < |vals| :: CanonicalValue(vals[i]))
      && vals[|vals| - 1] != []
      && KeepCurrent(pairs) == pairs
  {
    CanonicalColumns(pairs);
    CanonicalValues(pairs);
  }

  lemma CanonicalColumns(pairs: seq<(string, string)>)
    requires forall i | 0 <= i < |pairs| :: CanonicalColumn(pairs[i].0)
    ensures var cols := Firsts(pairs);
      && ')' !in Join(cols, Sep) && !Contains(Join(cols, Sep), ValuesWord)
      && (forall i | 0 <= i < |cols| :: cols[i] != [] && IsStripped(cols[i], IsPyWhitespace) && ',' !in cols[i])
      && KeepCurrent(pairs) == pairs
  {
    var cols := Firsts(pairs);
    JoinExcludes(cols, Sep, ')');
    SepAvoidsValues();
    JoinAvoids(cols, Sep, ValuesWord);
  }

  lemma CanonicalValues(pairs: seq<(string, string)>)
    requires forall i | 0 <= i < |pairs| :: CanonicalValue(pairs[i].1)
    ensures var vals := Seconds(pairs);
      && ';' !in Join(vals, Sep) && (forall i | 0 <= i < |vals| :: CanonicalValue(vals[i]))
  {
    JoinExcludes(Seconds(pairs), Sep, ';');
  }

  /** No character of the separator occurs in `VALUES`. */
  lemma SepAvoidsValues()
    ensures |Sep| > 0 && forall j | 0 <= j < |Sep| :: Sep[j] !in ValuesWord
  {
    forall j | 0 <= j < |Sep|
      ensures Sep[j] !in ValuesWord
    {
    }
  }

  /** The replacement function leaves a canonical statement as it is. */
  lemma ReplaceRender(pairs: seq<(string, string)>)
    requires Canonical(pairs)
    ensures ReplaceInsert(Render(pairs)) == Render(pairs)
  {
    ParseRender(pairs);
  }

  // -----------------------------------------------------------------------
  // The whole-file scan
  // -----------------------------------------------------------------------

  /** Text at whose positions no statement starts is copied unchanged, and the
      scan carries on after it. */
  lemma {:induction false} TransformCopies(a: string, b: string)
    requires forall i | 0 <= i < |a| :: MatchAt((a + b)[i..]) == None
    ensures Transform(a + b) == a + Transform(b)
    decreases |a|
  {
    if a == [] {
      assert a + b == b;
    } else {
      var s := a + b;
      assert MatchAt(s) == None by {
        assert MatchAt(s[0..]) == None;
        assert s[0..] == s;
      }
      forall i | 0 <= i < |a[1..]|
        ensures MatchAt((a[1..] + b)[i..]) == None
      {
        assert (a[1..] + b)[i..] == s[i + 1..];
      }
      calc {
        Transform(s);
        { TransformSkips(s); }
        [s[0]] + Transform(s[1..]);
        { assert s[1..] == a[1..] + b; }
        [a[0]] + Transform(a[1..] + b);
        { TransformCopies(a[1..], b); }
        [a[0]] + (a[1..] + Transform(b));
        { assert [a[0]] + a[1..] == a; }
        a + Transform(b);
      }
    }
  }

  /** Where no statement starts, the scan copies one character. */
  lemma TransformSkips(s: string)
    requires s != [] && MatchAt(s) == None
    ensures Transform(s) == [s[0]] + Transform(s[1..])
  {
  }

  /** Text that never mentions the target table passes through unchanged. */
  lemma TransformPlain(t: string)
    requires !Contains(t, Keyword)
    ensures Transform(t) == t
  {
    PlainStarts(t, []);
    TransformCopies(t, []);
    assert t + [] == t;
  }

  /** The table keyword does not overlap itself: only its first and eighth
      characters are `I`, and the eighth is not followed as the first is. */
  lemma KeywordBorders()
    ensures |Keyword| == 22 && Keyword[0] == 'I' && Keyword[2] == 'S' && Keyword[9] == 'T'
    ensures forall d | 1 <= d < 22 :: Keyword[d] == 'I' ==> d == 7
  {
  }

  /** No statement starts inside keyword-free text followed either by nothing
      or by another statement: an occurrence would have to overlap the
      following keyword. */
  lemma PlainStarts(a: string, b: string)
    requires !Contains(a, Keyword)
    requires b == [] || OccursAt(b, 0, Keyword)
    ensures forall i | 0 <= i < |a| :: MatchAt((a + b)[i..]) == None
  {
    forall i | 0 <= i < |a|
      ensures MatchAt((a + b)[i..]) == None
    {
      NotStartAt(a, b, i);
    }
  }

  lemma NotStartAt(a: string, b: string, i: nat)
    requires !Contains(a, Keyword) && i < |a|
    requires b == [] || OccursAt(b, 0, Keyword)
    ensures !OccursAt((a + b)[i..], 0, Keyword)
  {
    var s := a + b;
    var d := |a| - i;
    KeywordBorders();
    if d >= 22 {
      assert !OccursAt(a, i, Keyword);
      assert a[i..i + 22] == s[i..][..22];
    } else if b == [] {
      assert |s[i..]| == d;
    } else if d != 7 {
      assert s[i..][d] == b[0] == Keyword[0];
      assert Keyword[d] != 'I';
    } else {
      assert s[i..][9] == b[2] == Keyword[2];
    }
  }

  /** A canonical statement passes through the scan unchanged, whatever follows it. */
  lemma TransformRender(pairs: seq<(string, string)>, rest: string)
    requires Canonical(pairs)
    ensures Transform(Render(pairs) + rest) == Render(pairs) + Transform(rest)
  {
    var r := Render(pairs);
    var s := r + rest;
    RenderMatches(pairs, rest);
    assert s[..|r|] == r && s[|r|..] == rest;
    ReplaceRender(pairs);
  }

  /** A file laid out as keyword-free gaps and canonical statements. */
  datatype Chunk = Chunk(gap: string, stmt: seq<(string, string)>)

  function Assemble(cs: seq<Chunk>, tail: string): string {
    if cs == [] then tail else cs[0].gap + Render(cs[0].stmt) + Assemble(cs[1..], tail)
  }

  predicate CanonicalFile(cs: seq<Chunk>, tail: string) {
    && (forall k | 0 <= k < |cs| :: !Contains(cs[k].gap, Keyword) && Canonical(cs[k].stmt))
    && !Contains(tail, Keyword)
  }

  /** Idempotence on the rewriter's output: a file made of canonical
      statements is a fixed point of the scan. */
  lemma {:induction false} TransformFixed(cs: seq<Chunk>, tail: string)
    requires CanonicalFile(cs, tail)
    ensures Transform(Assemble(cs, tail)) == Assemble(cs, tail)
    decreases |cs|
  {
    if cs == [] {
      TransformPlain(tail);
    } else {
      var g, r, rest := cs[0].gap, Render(cs[0].stmt), Assemble(cs[1..], tail);
      assert CanonicalFile(cs[1..], tail) by {
        forall k | 0 <= k < |cs[1..]|
          ensures !Contains(cs[1..][k].gap, Keyword) && Canonical(cs[1..][k].stmt)
        {
          assert cs[1..][k] == cs[k + 1];
        }
      }
      TransformFixed(cs[1..], tail);
      RenderStarts(cs[0].stmt, rest);
      PlainStarts(g, r + rest);
      assert g + r + rest == g + (r + rest);
      TransformCopies(g, r + rest);
      TransformRender(cs[0].stmt, rest);
    }
  }

  lemma RenderStarts(pairs: seq<(string, string)>, rest: string)
    ensures OccursAt(Render(pairs) + rest, 0, Keyword)
  {
    var s := Render(pairs) + rest;
    assert s[..|Keyword|] == Keyword;
  }

  /** Rewriting one statement whose surviving pairs are canonical gives the
      canonical layout, and a second pass leaves that as it is. */
  lemma StatementTwice(m: string, kept: seq<(string, string)>)
    requires MatchAt(m) == Some(|m|) && Parse(m) == Some(kept) && Canonical(kept)
    ensures Transform(m) == Render(kept)
    ensures Transform(Transform(m)) == Transform(m)
  {
    TransformWhole(m);
    TransformRender(kept, []);
    assert Render(kept) + [] == Render(kept);
  }

  /** A text that is one whole statement is replaced as a unit. */
  lemma TransformWhole(m: string)
    requires MatchAt(m) == Some(|m|)
    ensures Transform(m) == ReplaceInsert(m)
  {
    StatementThen(m, []);
    assert m + [] == m;
    assert Transform(m + []) == ReplaceInsert(m) + Transform([]);
    assert Transform([]) == [];
  }

  // -----------------------------------------------------------------------
  // A match never reads past its own end
  // -----------------------------------------------------------------------

  lemma FindFromExtends(s: string, t: string, from: nat, c: char)
    requires from <= |s| && FindFrom(s, from, c) < |s|
    ensures FindFrom(s + t, from, c) == FindFrom(s, from, c)
  {
    var k := FindFrom(s, from, c);
    forall i | from <= i < k
      ensures (s + t)[i] != c
    {
      assert (s + t)[i] == s[i];
    }
    FindFromIs(s + t, from, c, k);
  }

  lemma SkipWhileExtends(s: string, t: string, from: nat, ws: char -> bool)
    requires from <= |s| && SkipWhile(s, from, ws) < |s|
    ensures SkipWhile(s + t, from, ws) == SkipWhile(s, from, ws)
  {
    var k := SkipWhile(s, from, ws);
    forall i | from <= i < k
      ensures ws((s + t)[i])
    {
      assert (s + t)[i] == s[i];
    }
    SkipWhileIs(s + t, from, ws, k);
  }

  lemma OccursAtExtends(s: string, t: string, i: nat, w: string)
    requires OccursAt(s, i, w)
    ensures OccursAt(s + t, i, w)
  {
    assert (s + t)[i..i + |w|] == s[i..i + |w|];
  }

  lemma ValueGroupExtends(s: string, t: string, v: nat)
    requires v <= |s| && ValueGroup(s, v).Some?
    ensures ValueGroup(s + t, v) == ValueGroup(s, v)
  {
    FindFromExtends(s, t, v + 1, ';');
  }

  lemma ValuesKeywordExtends(s: string, t: string, w: nat)
    requires w <= |s| && ValuesKeyword(s, w).Some?
    ensures ValuesKeyword(s + t, w) == ValuesKeyword(s, w)
  {
    var v := SkipWhile(s, w + |ValuesWord|, IsPyWhitespace);
    OccursAtExtends(s, t, w, ValuesWord);
    SkipWhileExtends(s, t, w + |ValuesWord|, IsPyWhitespace);
    ValueGroupExtends(s, t, v);
  }

  lemma ValuesKeywordOccurs(s: string, w: nat)
    requires w <= |s| && ValuesKeyword(s, w).Some?
    ensures w < |s| && OccursAt(s, w, ValuesWord)
  {
  }

  lemma ColumnGroupOpens(s: string, p: nat)
    requires p <= |s| && ColumnGroup(s, p).Some?
    ensures p < |s| && s[p] == '('
    ensures FindFrom(s, p + 1, ')') < |s| && FindFrom(s, p + 1, ')') != p + 1
  {
  }

  lemma ColumnGroupExtends(s: string, t: string, p: nat)
    requires p <= |s| && ColumnGroup(s, p).Some?
    ensures ColumnGroup(s + t, p) == ColumnGroup(s, p)
  {
    ColumnGroupOpens(s, p);
    var k := FindFrom(s, p + 1, ')');
    var w := SkipWhile(s, k + 1, IsPyWhitespace);
    ColumnGroupIs(s, p, k, w);
    ValuesKeywordOccurs(s, w);
    FindFromExtends(s, t, p + 1, ')');
    SkipWhileExtends(s, t, k + 1, IsPyWhitespace);
    assert (s + t)[p] == '(';
    ColumnGroupIs(s + t, p, k, w);
    ValuesKeywordExtends(s, t, w);
  }

  /** What follows a statement cannot change where the pattern matched it. */
  lemma MatchAtExtends(s: string, t: string)
    requires MatchAt(s).Some?
    ensures MatchAt(s + t) == MatchAt(s)
  {
    var p := SkipWhile(s, |Keyword|, IsPyWhitespace);
    OccursAtExtends(s, t, 0, Keyword);
    SkipWhileExtends(s, t, |Keyword|, IsPyWhitespace);
    ColumnGroupExtends(s, t, p);
  }

  // -----------------------------------------------------------------------
  // Rewriting a whole file, and rewriting it again
  // -----------------------------------------------------------------------

  /** A file as the script meets it: a keyword-free gap, then a statement the
      pattern matches exactly, repeated, then a keyword-free tail. Each piece
      also names the pairs its statement keeps. */
  datatype Piece = Piece(gap: string, text: string, kept: seq<(string, string)>)

  function AssembleRaw(ps: seq<Piece>, tail: string): string {
    if ps == [] then tail else ps[0].gap + ps[0].text + AssembleRaw(ps[1..], tail)
  }

  /** A gap the scan copies, and a statement matched whole whose kept pairs
      the layout reads back. */
  predicate RewritablePiece(p: Piece) {
    && !Contains(p.gap, Keyword)
    && MatchAt(p.text) == Some(|p.text|)
    && Parse(p.text) == Some(p.kept) && Canonical(p.kept)
  }

  predicate Rewritable(ps: seq<Piece>, tail: string) {
    (forall k | 0 <= k < |ps| :: RewritablePiece(ps[k])) && !Contains(tail, Keyword)
  }

  /** The same file with every statement replaced by the pairs it keeps. */
  function Rewritten(ps: seq<Piece>): (cs: seq<Chunk>)
    ensures |cs| == |ps|
    ensures forall k | 0 <= k < |ps| :: cs[k] == Chunk(ps[k].gap, ps[k].kept)
  {
    if ps == [] then [] else [Chunk(ps[0].gap, ps[0].kept)] + Rewritten(ps[1..])
  }

  /** What the scan produces from such a file is a file of canonical statements. */
  lemma RewrittenCanonical(ps: seq<Piece>, tail: string)
    requires Rewritable(ps, tail)
    ensures CanonicalFile(Rewritten(ps), tail)
  {
  }

  lemma RewritableRest(ps: seq<Piece>, tail: string)
    requires ps != [] && Rewritable(ps, tail)
    ensures RewritablePiece(ps[0]) && Rewritable(ps[1..], tail)
  {
    assert forall k | 0 <= k < |ps[1..]| :: ps[1..][k] == ps[k + 1];
  }

  /** The scan replaces every statement by the layout of the pairs it keeps
      and copies the gaps. */
  lemma {:induction false} TransformRaw(ps: seq<Piece>, tail: string)
    requires Rewritable(ps, tail)
    ensures Transform(AssembleRaw(ps, tail)) == Assemble(Rewritten(ps), tail)
    decreases |ps|
  {
    if ps == [] {
      TransformPlain(tail);
    } else {
      var p := ps[0];
      RewritableRest(ps, tail);
      TransformRaw(ps[1..], tail);
      ReplaceKept(p.text, p.kept);
      GapThenStatement(p.gap, p.text, AssembleRaw(ps[1..], tail), Render(p.kept));
      assert Rewritten(ps)[1..] == Rewritten(ps[1..]);
    }
  }

  /** One gap and one statement of a file: the gap is copied, the statement
      replaced, and the scan carries on after it. */
  lemma GapThenStatement(g: string, m: string, rest: string, r: string)
    requires !Contains(g, Keyword) && MatchAt(m) == Some(|m|) && ReplaceInsert(m) == r
    ensures Transform(g + m + rest) == g + r + Transform(rest)
  {
    var s := m + rest;
    OccursAtExtends(m, rest, 0, Keyword);
    GapCopied(g, s);
    StatementThen(m, rest);
    ConcatAssoc(g, m, rest);
    ConcatAssoc(g, r, Transform(rest));
  }

  lemma ConcatAssoc(a: string, b: string, c: string)
    ensures a + (b + c) == a + b + c
  {
  }

  /** A keyword-free gap before a statement is copied as it is. */
  lemma GapCopied(g: string, s: string)
    requires !Contains(g, Keyword) && OccursAt(s, 0, Keyword)
    ensures Transform(g + s) == g + Transform(s)
  {
    PlainStarts(g, s);
    TransformCopies(g, s);
  }

  lemma StatementThen(m: string, rest: string)
    requires MatchAt(m) == Some(|m|)
    ensures Transform(m + rest) == ReplaceInsert(m) + Transform(rest)
  {
    var s := m + rest;
    MatchAtExtends(m, rest);
    assert s[..|m|] == m && s[|m|..] == rest;
  }

  lemma ReplaceKept(m: string, kept: seq<(string, string)>)
    requires Parse(m) == Some(kept) && kept != []
    ensures ReplaceInsert(m) == Render(kept)
  {
  }

  /** Running the script over its own output changes nothing. */
  lemma TransformIdempotent(ps: seq<Piece>, tail: string)
    requires Rewritable(ps, tail)
    ensures Transform(Transform(AssembleRaw(ps, tail))) == Transform(AssembleRaw(ps, tail))
  {
    TransformRaw(ps, tail);
    RewrittenCanonical(ps, tail);
    TransformFixed(Rewritten(ps), tail);
  }

  // -----------------------------------------------------------------------
  // An empty final value is lost on the second pass
  // -----------------------------------------------------------------------

  lemma ValuesOfFramedEmptyLast(vals: seq<string>)
    requires |vals| >= 1 && vals[|vals| - 1] == []
    requires forall i | 0 <= i < |vals| :: CanonicalValue(vals[i])
    ensures Values(Indent + Join(vals, Sep) + "\n") == vals[..|vals| - 1]
  {
    var f := Framed(vals);
    FramedJoin(vals);
    FramedClosed(vals);
    ClosedJoinDropsLast(f, vals);
  }

  /** The pairs of a laid-out statement, each read back by position. */
  lemma ZipPrefix(pairs: seq<(string, string)>, n: nat)
    requires n <= |pairs|
    ensures Zip(Firsts(pairs), Seconds(pairs)[..n]) == pairs[..n]
  {
  }

  /** Laying out pairs whose last value is empty and reading the layout back
      loses the last pair: its value was the final one, and it stripped to
      nothing. */
  lemma RenderDropsEmptyLast(pairs: seq<(string, string)>)
    requires Laid(pairs) && pairs[|pairs| - 1].1 == []
    ensures Parse(Render(pairs)) == Some(pairs[..|pairs| - 1])
  {
    var n := |pairs|;
    CanonicalColumns(pairs);
    CanonicalValues(pairs);
    ParseLayoutEmptyLast(Firsts(pairs), Seconds(pairs));
    ZipPrefix(pairs, n - 1);
    KeepCurrentPrefix(pairs, n - 1);
  }

  lemma KeepCurrentPrefix(pairs: seq<(string, string)>, n: nat)
    requires n <= |pairs| && KeepCurrent(pairs) == pairs
    ensures KeepCurrent(pairs[..n]) == pairs[..n]
  {
    forall i | 0 <= i < n
      ensures pairs[..n][i].0 !in Deprecated
    {
      assert pairs[..n][i] == KeepCurrent(pairs)[i];
    }
  }

  lemma ParseLayoutEmptyLast(cols: seq<string>, vals: seq<string>)
    requires |cols| >= 1 && |vals| >= 1 && vals[|vals| - 1] == []
    requires ')' !in Join(cols, Sep) && ';' !in Join(vals, Sep) && !Contains(Join(cols, Sep), ValuesWord)
    requires forall i | 0 <= i < |cols| :: cols[i] != [] && IsStripped(cols[i], IsPyWhitespace) && ',' !in cols[i]
    requires forall i | 0 <= i < |vals| :: CanonicalValue(vals[i])
    ensures Parse(Layout(Join(cols, Sep), Join(vals, Sep))) == Some(KeepCurrent(Zip(cols, vals[..|vals| - 1])))
  {
    var jc, jv := Join(cols, Sep), Join(vals, Sep);
    ColsOfLayout(jc, jv);
    ValsOfLayout(jc, jv);
    ColumnsOfFramed(cols);
    ValuesOfFramedEmptyLast(vals);
    ParseFrom(Layout(jc, jv), Indent + jc + "\n", Indent + jv + "\n");
  }

  /** A longer list of names lays out longer. */
  lemma RenderLonger(pairs: seq<(string, string)>)
    requires Laid(pairs) && |pairs| >= 2
    ensures |Render(pairs[..|pairs| - 1])| < |Render(pairs)|
  {
    var n := |pairs|;
    var init := pairs[..n - 1];
    assert Firsts(pairs) == Firsts(init) + [pairs[n - 1].0];
    assert Seconds(pairs) == Seconds(init) + [pairs[n - 1].1];
    JoinAppend(Firsts(init), pairs[n - 1].0, Sep);
    JoinAppend(Seconds(init), pairs[n - 1].1, Sep);
  }

  /** The script as written: a statement whose last kept value is empty is
      rewritten again on a second pass, one pair shorter. */
  lemma ReplaceDropsEmptyLast(pairs: seq<(string, string)>)
    requires Laid(pairs) && |pairs| >= 2 && pairs[|pairs| - 1].1 == []
    ensures ReplaceInsert(Render(pairs)) == Render(pairs[..|pairs| - 1])
    ensures ReplaceInsert(Render(pairs)) != Render(pairs)
  {
    RenderDropsEmptyLast(pairs);
    RenderLonger(pairs);
  }

  /** Over a whole laid-out statement whose last value is empty, the scan as
      written changes the text, one pair shorter. */
  lemma TransformDropsEmptyLast(pairs: seq<(string, string)>)
    requires Laid(pairs) && |pairs| >= 2 && pairs[|pairs| - 1].1 == []
    ensures Transform(Render(pairs)) == Render(pairs[..|pairs| - 1])
    ensures Transform(Render(pairs)) != Render(pairs)
  {
    RenderMatches(pairs, []);
    assert Render(pairs) + [] == Render(pairs);
    TransformWhole(Render(pairs));
    ReplaceDropsEmptyLast(pairs);
  }

  lemma LaidPrefix(pairs: seq<(string, string)>, n: nat)
    requires Laid(pairs) && 1 <= n <= |pairs|
    ensures Laid(pairs[..n])
  {
    assert forall i | 0 <= i < n :: pairs[..n][i] == pairs[i];
  }

  /** The pairs `a = 1`, `b = ''`, `c = ''` laid out, as the script produces
      them from a statement whose last two values are blank: each pass loses
      one more pair, so the rewrite is not idempotent. */
  lemma TrailingEmptyNotIdempotent()
    ensures var m := Render([("a", "1"), ("b", ""), ("c", "")]);
      && Transform(m) == Render([("a", "1"), ("b", "")])
      && Transform(Transform(m)) == Render([("a", "1")])
      && Transform(Transform(m)) != Transform(m)
  {
    var p3: seq<(string, string)> := [("a", "1"), ("b", ""), ("c", "")];
    var p2: seq<(string, string)> := [("a", "1"), ("b", "")];
    assert p3[..2] == p2 && p2[..1] == [("a", "1")];
    LaidSample();
    LaidPrefix(p3, 2);
    TransformDropsEmptyLast(p3);
    TransformDropsEmptyLast(p2);
  }

  lemma LaidSample()
    ensures Laid([("a", "1"), ("b", ""), ("c", "")])
  {
    var p3: seq<(string, string)> := [("a", "1"), ("b", ""), ("c", "")];
    NameCanonical('a');
    NameCanonical('b');
    NameCanonical('c');
    PlainRun("1", Start);
    PlainRun("", Start);
  }

  lemma NameCanonical(c: char)
    requires 'a' <= c <= 'z'
    ensures CanonicalColumn([c])
  {
    assert !OccursAt([c], 0, ValuesWord) && !OccursAt([c], 1, ValuesWord);
  }

  // -----------------------------------------------------------------------
  // The replacement with every value kept
  // -----------------------------------------------------------------------

  /** The replacement as evidently intended: the final value is kept even when
      it is empty, so each value stays with its column. */
  function ParseKeepingLast(m: string): Option<seq<(string, string)>> {
    match ColsSearch(m, 0)
    case None => None
    case Some(ct) =>
      match ValsSearch(m, 0)
      case None => None
      case Some(vt) => Some(KeepCurrent(Zip(Columns(ct), ValuesKeepingLast(vt))))
  }

  function ReplaceKeepingLast(m: string): string {
    match ParseKeepingLast(m)
    case None => m
    case Some(kept) => if kept == [] then m else Render(kept)
  }

  /** With the final value kept, reading any laid-out statement back gives its
      pairs, empty last value or not. */
  lemma ParseKeepingLastRender(pairs: seq<(string, string)>)
    requires Laid(pairs)
    ensures ParseKeepingLast(Render(pairs)) == Some(pairs)
  {
    CanonicalColumns(pairs);
    CanonicalValues(pairs);
    ParseLayoutKept(Firsts(pairs), Seconds(pairs));
    ZipUnzip(pairs);
  }

  lemma ParseLayoutKept(cols: seq<string>, vals: seq<string>)
    requires |cols| >= 1 && |vals| >= 1
    requires ')' !in Join(cols, Sep) && ';' !in Join(vals, Sep) && !Contains(Join(cols, Sep), ValuesWord)
    requires forall i | 0 <= i < |cols| :: cols[i] != [] && IsStripped(cols[i], IsPyWhitespace) && ',' !in cols[i]
    requires forall i | 0 <= i < |vals| :: CanonicalValue(vals[i])
    ensures ParseKeepingLast(Layout(Join(cols, Sep), Join(vals, Sep))) == Some(KeepCurrent(Zip(cols, vals)))
  {
    var jc, jv := Join(cols, Sep), Join(vals, Sep);
    ColsOfLayout(jc, jv);
    ValsOfLayout(jc, jv);
    ColumnsOfFramed(cols);
    ValuesOfFramedKept(vals);
  }

  lemma ValuesOfFramedKept(vals: seq<string>)
    requires |vals| >= 1
    requires forall i | 0 <= i < |vals| :: CanonicalValue(vals[i])
    ensures ValuesKeepingLast(Indent + Join(vals, Sep) + "\n") == vals
  {
    var f := Framed(vals);
    FramedJoin(vals);
    FramedClosed(vals);
    ClosedJoinKeepsAll(f, vals);
  }

  /** The corrected replacement leaves every laid-out statement as it is, so
      a second pass changes nothing. */
  lemma ReplaceKeepingLastRender(pairs: seq<(string, string)>)
    requires Laid(pairs)
    ensures ReplaceKeepingLast(Render(pairs)) == Render(pairs)
  {
    ParseKeepingLastRender(pairs);
  }

  /** Where the final value is not blank, the corrected replacement is the
      script's. */
  lemma KeepingLastReplaceAgrees(m: string)
    requires ValsSearch(m, 0).Some?
    requires var p := Pieces(ValsSearch(m, 0).value); PyStrip(p[|p| - 1]) != []
    ensures ReplaceKeepingLast(m) == ReplaceInsert(m)
  {
    ParseKeepingLastAgrees(m);
  }

  lemma ParseKeepingLastAgrees(m: string)
    requires ValsSearch(m, 0).Some?
    requires var p := Pieces(ValsSearch(m, 0).value); PyStrip(p[|p| - 1]) != []
    ensures ParseKeepingLast(m) == Parse(m)
  {
    var vt := ValsSearch(m, 0).value;
    KeepingLastAgrees(vt);
    assert ValuesKeepingLast(vt) == Values(vt);
  }
}
