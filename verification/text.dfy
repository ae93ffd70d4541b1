/**
 * String helpers shared by every module: the two whitespace classes the
 * system relies on (Python's and JavaScript's), stripping, splitting,
 * joining, decimal rendering and zero padding. Strings are `seq<char>`.
 */
module Text {
  import opened Wrappers

  /** Python's `str.isspace()`, which is also the regex class `\s` on `str`. */
  predicate IsPyWhitespace(c: char) {
    || c == ' '
    || ('\t' <= c <= '\r')
    || ('\U{1C}' <= c <= '\U{1F}')
    || c == '\U{85}' || c == '\U{A0}' || c == '\U{1680}'
    || ('\U{2000}' <= c <= '\U{200A}')
    || c == '\U{2028}' || c == '\U{2029}' || c == '\U{202F}'
    || c == '\U{205F}' || c == '\U{3000}'
  }

  /** ECMAScript line terminators: what the regex `.` refuses to match. */
  predicate IsJsLineTerminator(c: char) {
    c == '\n' || c == '\r' || c == '\U{2028}' || c == '\U{2029}'
  }

  /** ECMAScript WhiteSpace plus LineTerminator: what `String.prototype.trim`
      removes and what the regex class `\s` matches. */
  predicate IsJsWhitespace(c: char) {
    || IsJsLineTerminator(c)
    || c == '\t' || c == '\U{0B}' || c == '\U{0C}' || c == ' '
    || c == '\U{A0}' || c == '\U{1680}'
    || ('\U{2000}' <= c <= '\U{200A}')
    || c == '\U{202F}' || c == '\U{205F}' || c == '\U{3000}' || c == '\U{FEFF}'
  }

  predicate AllChars(s: string, p: char -> bool) {
    forall i | 0 <= i < |s| :: p(s[i])
  }

  // ---------------------------------------------------------------------
  // Stripping
  // ---------------------------------------------------------------------

  /** Number of leading characters satisfying `ws`. */
  function LeadingCount(s: string, ws: char -> bool): (n: nat)
    ensures n <= |s|
    ensures forall i | 0 <= i < n :: ws(s[i])
    ensures n < |s| ==> !ws(s[n])
  {
    if s != [] && ws(s[0]) then 1 + LeadingCount(s[1..], ws) else 0
  }

  /** Number of trailing characters satisfying `ws`. */
  function TrailingCount(s: string, ws: char -> bool): (n: nat)
    ensures n <= |s|
    ensures forall i | |s| - n <= i < |s| :: ws(s[i])
    ensures n < |s| ==> !ws(s[|s| - n - 1])
  {
    if s != [] && ws(s[|s| - 1]) then 1 + TrailingCount(s[..|s| - 1], ws) else 0
  }

  /** `s` without its leading and trailing `ws` characters (Python's
      `strip()`, JavaScript's `trim()`, depending on `ws`). */
  function Strip(s: string, ws: char -> bool): (r: string)
    ensures LeadingCount(s, ws) + |r| <= |s|
    ensures r == s[LeadingCount(s, ws)..LeadingCount(s, ws) + |r|]
    ensures forall i | LeadingCount(s, ws) + |r| <= i < |s| :: ws(s[i])
    ensures r != [] ==> !ws(r[0]) && !ws(r[|r| - 1])
    ensures r == [] <==> AllChars(s, ws)
  {
    var rest := s[LeadingCount(s, ws)..];
    rest[..|rest| - TrailingCount(rest, ws)]
  }

  /** A string is already stripped when it neither starts nor ends with `ws`. */
  predicate IsStripped(s: string, ws: char -> bool) {
    s == [] || (!ws(s[0]) && !ws(s[|s| - 1]))
  }

  /** Surrounding a stripped string with whitespace and stripping again gives
      it back: the stripping used by every parser of this model is exact. */
  lemma StripSurrounded(a: string, v: string, b: string, ws: char -> bool)
    requires AllChars(a, ws) && AllChars(b, ws) && IsStripped(v, ws)
    ensures Strip(a + v + b, ws) == v
  {
    var s := a + v + b;
    var k := LeadingCount(s, ws);
    var r := Strip(s, ws);
    if v == [] {
      assert AllChars(s, ws);
    } else {
      assert s[|a|] == v[0];
      assert k == |a|;
      assert s[|a| + |v| - 1] == v[|v| - 1];
      assert !AllChars(s, ws);
      assert |r| == |v|;
      assert s[k..k + |v|] == v;
    }
  }

  lemma StripOfStripped(v: string, ws: char -> bool)
    requires IsStripped(v, ws)
    ensures Strip(v, ws) == v
  {
    StripSurrounded([], v, [], ws);
    assert [] + v + [] == v;
  }

  /** Python's `s.strip()` with no argument. */
  function PyStrip(s: string): (r: string)
    ensures r == [] <==> AllChars(s, IsPyWhitespace)
    ensures IsStripped(r, IsPyWhitespace)
  {
    Strip(s, IsPyWhitespace)
  }

  /** JavaScript's `s.trim()`. */
  function JsTrim(s: string): (r: string)
    ensures r == [] <==> AllChars(s, IsJsWhitespace)
    ensures IsStripped(r, IsJsWhitespace)
  {
    Strip(s, IsJsWhitespace)
  }

  /** JavaScript's `!s.trim()`: empty or whitespace only. */
  predicate IsBlank(s: string) {
    AllChars(s, IsJsWhitespace)
  }

  // ---------------------------------------------------------------------
  // Joining and splitting
  // ---------------------------------------------------------------------

  /** `parts.join(sep)` / `sep.join(parts)`. */
  function Join(parts: seq<string>, sep: string): string
  {
    if |parts| == 0 then ""
    else if |parts| == 1 then parts[0]
    else Join(parts[..|parts| - 1], sep) + sep + parts[|parts| - 1]
  }

  /** A non-empty sequence is its front followed by its last element. */
  lemma SplitLast<T>(s: seq<T>)
    requires |s| >= 1
    ensures s == s[..|s| - 1] + [s[|s| - 1]]
  {
  }

  lemma JoinAppend(parts: seq<string>, x: string, sep: string)
    requires |parts| > 0
    ensures Join(parts + [x], sep) == Join(parts, sep) + sep + x
  {
    assert (parts + [x])[..|parts|] == parts;
  }

  /** The same join, read from the front. */
  lemma {:induction false} JoinCons(parts: seq<string>, sep: string)
    requires |parts| >= 2
    ensures Join(parts, sep) == parts[0] + sep + Join(parts[1..], sep)
  {
    if |parts| > 2 {
      var init := parts[..|parts| - 1];
      JoinCons(init, sep);
      assert init[1..] == parts[1..][..|parts[1..]| - 1];
    }
  }

  lemma JoinFront(x: string, rest: seq<string>, sep: string)
    requires |rest| >= 1
    ensures Join([x] + rest, sep) == x + sep + Join(rest, sep)
  {
    JoinCons([x] + rest, sep);
    assert ([x] + rest)[1..] == rest;
  }

  lemma JoinTwo(a: string, b: string, sep: string)
    ensures Join([a, b], sep) == a + sep + b
  {
    assert [a, b][..1] == [a];
  }

  lemma JoinThree(a: string, b: string, c: string, sep: string)
    ensures Join([a, b, c], sep) == a + sep + b + sep + c
  {
    assert [a, b, c][..2] == [a, b];
    JoinTwo(a, b, sep);
  }

  /** `cur` glued onto the front of the first part of `r`. */
  function Prepend(cur: string, r: seq<string>): (p: seq<string>)
    requires |r| >= 1
    ensures |p| == |r| && p[0] == cur + r[0] && p[1..] == r[1..]
  {
    [cur + r[0]] + r[1..]
  }

  /** Gluing text onto the first part glues it onto the front of the join. */
  lemma {:induction false} PrependJoin(cur: string, r: seq<string>, sep: string)
    requires |r| >= 1
    ensures Join(Prepend(cur, r), sep) == cur + Join(r, sep)
  {
    var p := Prepend(cur, r);
    if |r| >= 2 {
      var n := |r|;
      assert p[..n - 1] == Prepend(cur, r[..n - 1]);
      PrependJoin(cur, r[..n - 1], sep);
      assert p[n - 1] == r[n - 1];
    }
  }

  /** Every part with `lead` written before it. */
  function LeadAll(xs: seq<string>, lead: string): (r: seq<string>)
    ensures |r| == |xs| && forall i | 0 <= i < |xs| :: r[i] == lead + xs[i]
  {
    seq(|xs|, i requires 0 <= i < |xs| => lead + xs[i])
  }

  /** The last part with `t` written after it. */
  function AppendLast(xs: seq<string>, t: string): (r: seq<string>)
    requires |xs| >= 1
    ensures |r| == |xs| && r[..|xs| - 1] == xs[..|xs| - 1] && r[|xs| - 1] == xs[|xs| - 1] + t
  {
    xs[..|xs| - 1] + [xs[|xs| - 1] + t]
  }

  /** Writing `lead` after every separator and before the first part is the
      same as writing it before every part. */
  lemma {:induction false} JoinLead(lead: string, xs: seq<string>, sep: string)
    requires |xs| >= 1
    ensures lead + Join(xs, sep + lead) == Join(LeadAll(xs, lead), sep)
  {
    var n := |xs|;
    if n > 1 {
      var init := xs[..n - 1];
      JoinLead(lead, init, sep);
      assert LeadAll(xs, lead)[..n - 1] == LeadAll(init, lead);
      Regroup(lead, Join(init, sep + lead), sep, xs[n - 1]);
    }
  }

  lemma Regroup(lead: string, j: string, sep: string, x: string)
    ensures lead + (j + (sep + lead) + x) == (lead + j) + sep + (lead + x)
  {
  }

  lemma JoinTrail(xs: seq<string>, t: string, sep: string)
    requires |xs| >= 1
    ensures Join(xs, sep) + t == Join(AppendLast(xs, t), sep)
  {
    var n := |xs|;
    var ys := AppendLast(xs, t);
    if n > 1 {
      assert ys[..n - 1] == xs[..n - 1];
    }
  }

  /** Splitting on every occurrence of one character (Python's
      `re.split(',', s)`, JavaScript's `s.split(" ")`). */
  function SplitOn(s: string, c: char): (r: seq<string>)
    ensures |r| >= 1
    ensures Join(r, [c]) == s
    ensures forall i | 0 <= i < |r| :: c !in r[i]
  {
    if s == [] then [""]
    else
      var init := SplitOn(s[..|s| - 1], c);
      var x := s[|s| - 1];
      SplitLast(s);
      SplitStep(s[..|s| - 1], init, x, c);
      if x == c then init + [""] else AppendLast(init, [x])
  }

  /** One more character: a separator opens a new empty part, any other
      character extends the last part. */
  lemma SplitStep(p: string, init: seq<string>, x: char, c: char)
    requires |init| >= 1 && Join(init, [c]) == p
    requires forall i | 0 <= i < |init| :: c !in init[i]
    ensures x == c ==> Join(init + [""], [c]) == p + [x]
    ensures x == c ==> forall i | 0 <= i < |init| + 1 :: c !in (init + [""])[i]
    ensures x != c ==> Join(AppendLast(init, [x]), [c]) == p + [x]
    ensures x != c ==> forall i | 0 <= i < |init| :: c !in AppendLast(init, [x])[i]
  {
    if x == c {
      JoinAppend(init, "", [c]);
    } else {
      JoinTrail(init, [x], [c]);
      ExtendAvoids(init, x, c);
    }
  }

  lemma ExtendAvoids(init: seq<string>, x: char, c: char)
    requires |init| >= 1 && x != c
    requires forall i | 0 <= i < |init| :: c !in init[i]
    ensures forall i | 0 <= i < |init| :: c !in AppendLast(init, [x])[i]
  {
    var r := AppendLast(init, [x]);
    var n := |init|;
    forall i | 0 <= i < n
      ensures c !in r[i]
    {
      if i < n - 1 {
        assert r[..n - 1][i] == init[..n - 1][i];
      } else {
        CharsAvoid(init[n - 1], [x], c);
      }
    }
  }

  /** Two texts without `c` joined still lack `c`. */
  lemma CharsAvoid(a: string, b: string, c: char)
    requires c !in a && c !in b
    ensures c !in a + b
  {
  }

  /** Splitting a join whose parts avoid the separator gives the parts back. */
  lemma {:induction false} SplitOnJoin(parts: seq<string>, c: char)
    requires |parts| >= 1
    requires forall i | 0 <= i < |parts| :: c !in parts[i]
    ensures SplitOn(Join(parts, [c]), c) == parts
  {
    var r := SplitOn(Join(parts, [c]), c);
    SplitUnique(r, parts, c);
  }

  /** Two separator-free part lists with the same join are equal. */
  lemma {:induction false} SplitUnique(r: seq<string>, p: seq<string>, c: char)
    requires |r| >= 1 && |p| >= 1
    requires forall i | 0 <= i < |r| :: c !in r[i]
    requires forall i | 0 <= i < |p| :: c !in p[i]
    requires Join(r, [c]) == Join(p, [c])
    ensures r == p
    decreases |r| + |p|
  {
    if |r| == 1 || |p| == 1 {
    } else {
      var rq, pq := r[..|r| - 1], p[..|p| - 1];
      var rl, pl := r[|r| - 1], p[|p| - 1];
      var s := Join(r, [c]);
      assert s == Join(rq, [c]) + [c] + rl;
      assert s == Join(pq, [c]) + [c] + pl;
      assert s[|s| - |rl| - 1] == c && s[|s| - |pl| - 1] == c;
      assert forall i | |s| - |pl| <= i < |s| :: s[i] == pl[i - (|s| - |pl|)];
      assert forall i | |s| - |rl| <= i < |s| :: s[i] == rl[i - (|s| - |rl|)];
      assert rl == s[|s| - |rl|..] == pl;
      assert Join(rq, [c]) == s[..|s| - |rl| - 1] == Join(pq, [c]);
      SplitUnique(rq, pq, c);
      assert r == rq + [rl] && p == pq + [pl];
    }
  }

  /** The first index at or after `from` holding `c`, if any. */
  function FindFrom(s: string, from: nat, c: char): (r: nat)
    requires from <= |s|
    ensures from <= r <= |s|
    ensures r < |s| ==> s[r] == c
    ensures forall i | from <= i < r :: s[i] != c
    decreases |s| - from
  {
    if from == |s| || s[from] == c then from else FindFrom(s, from + 1, c)
  }

  /** The first index at or after `from` that is not `ws`. */
  function SkipWhile(s: string, from: nat, ws: char -> bool): (r: nat)
    requires from <= |s|
    ensures from <= r <= |s|
    ensures r < |s| ==> !ws(s[r])
    ensures forall i | from <= i < r :: ws(s[i])
    decreases |s| - from
  {
    if from == |s| || !ws(s[from]) then from else SkipWhile(s, from + 1, ws)
  }

  /** `FindFrom` is pinned down by its contract: the first `c` at or after `from`. */
  lemma FindFromIs(s: string, from: nat, c: char, k: nat)
    requires from <= k <= |s|
    requires k < |s| ==> s[k] == c
    requires forall i | from <= i < k :: s[i] != c
    ensures FindFrom(s, from, c) == k
  {
  }

  lemma SkipWhileIs(s: string, from: nat, ws: char -> bool, k: nat)
    requires from <= k <= |s|
    requires k < |s| ==> !ws(s[k])
    requires forall i | from <= i < k :: ws(s[i])
    ensures SkipWhile(s, from, ws) == k
  {
  }

  /** The last index holding `c`, if any (a greedy `.+` backing off to the last `c`). */
  function FindLast(s: string, c: char): (r: Option<nat>)
    ensures r.Some? ==> r.value < |s| && s[r.value] == c
    ensures r.Some? ==> forall i | r.value < i < |s| :: s[i] != c
    ensures r.None? <==> c !in s
  {
    if s == [] then None
    else if s[|s| - 1] == c then Some(|s| - 1)
    else
      var r := FindLast(s[..|s| - 1], c);
      SplitLast(s);
      r
  }

  /** `w` occurs in `s` at index `i`. */
  predicate OccursAt(s: string, i: nat, w: string) {
    i + |w| <= |s| && s[i..i + |w|] == w
  }

  /** `w` occurs somewhere in `s`. */
  predicate Contains(s: string, w: string) {
    exists i: nat | i <= |s| :: OccursAt(s, i, w)
  }

  /** An occurrence of `w` in `a + m + b` that cannot touch `m` (no character
      of `m` occurs in `w`) lies inside `a` or inside `b`. */
  lemma ContainsAcross(a: string, m: string, b: string, w: string)
    requires |m| > 0 && |w| > 0
    requires forall j | 0 <= j < |m| :: m[j] !in w
    requires !Contains(a, w) && !Contains(b, w)
    ensures !Contains(a + m + b, w)
  {
    var s := a + m + b;
    forall i: nat
      ensures !OccursAt(s, i, w)
    {
      if i + |w| > |s| {
      } else if i + |w| <= |a| {
        assert s[i..i + |w|] == a[i..i + |w|];
        assert !OccursAt(a, i, w);
      } else if i >= |a| + |m| {
        assert s[i..i + |w|] == b[i - |a| - |m|..i - |a| - |m| + |w|];
        assert !OccursAt(b, i - |a| - |m|, w);
      } else {
        var j := if i >= |a| then i else |a|;
        assert s[j] == m[j - |a|];
        assert s[i..i + |w|][j - i] == s[j];
      }
    }
  }

  /** An occurrence in `a + b` that would cover the last character of `a`
      is impossible when that character does not occur in `w`. */
  lemma ConcatAvoids(a: string, b: string, w: string)
    requires |w| > 0
    requires !Contains(a, w) && !Contains(b, w)
    requires |a| > 0 ==> a[|a| - 1] !in w
    ensures !Contains(a + b, w)
  {
    var s := a + b;
    forall i: nat
      ensures !OccursAt(s, i, w)
    {
      if i + |w| > |s| {
      } else if i + |w| <= |a| {
        assert s[i..i + |w|] == a[i..i + |w|];
        assert !OccursAt(a, i, w);
      } else if i >= |a| {
        assert s[i..i + |w|] == b[i - |a|..i - |a| + |w|];
        assert !OccursAt(b, i - |a|, w);
      } else {
        assert s[i..i + |w|][|a| - 1 - i] == a[|a| - 1];
      }
    }
  }

  /** A string missing the first character of `w` does not contain `w`. */
  lemma FirstCharAbsent(a: string, w: string)
    requires |w| > 0 && w[0] !in a
    ensures !Contains(a, w)
  {
    forall i: nat
      ensures !OccursAt(a, i, w)
    {
      if i + |w| <= |a| {
        assert a[i..i + |w|][0] == a[i] && a[i] in a;
      }
    }
  }

  /** No part and no separator holds `c`, so neither does the join. */
  lemma {:induction false} JoinExcludes(parts: seq<string>, sep: string, c: char)
    requires c !in sep
    requires forall i | 0 <= i < |parts| :: c !in parts[i]
    ensures c !in Join(parts, sep)
  {
    if |parts| > 1 {
      JoinExcludes(parts[..|parts| - 1], sep, c);
    }
  }

  /** The same for a join: an occurrence cannot straddle separators. */
  lemma {:induction false} JoinAvoids(parts: seq<string>, sep: string, w: string)
    requires |sep| > 0 && |w| > 0
    requires forall j | 0 <= j < |sep| :: sep[j] !in w
    requires forall i | 0 <= i < |parts| :: !Contains(parts[i], w)
    ensures !Contains(Join(parts, sep), w)
  {
    if |parts| == 0 {
    } else if |parts| == 1 {
    } else {
      JoinAvoids(parts[..|parts| - 1], sep, w);
      ContainsAcross(Join(parts[..|parts| - 1], sep), sep, parts[|parts| - 1], w);
    }
  }

  // ---------------------------------------------------------------------
  // Decimal rendering and padding
  // ---------------------------------------------------------------------

  predicate IsDigit(c: char) {
    '0' <= c <= '9'
  }

  function DigitChar(d: nat): (c: char)
    requires d < 10
    ensures IsDigit(c) && c as int - '0' as int == d
  {
    (d + '0' as int) as char
  }

  /** The value of one decimal digit; the callers only pass digits. */
  function DigitValue(c: char): (d: nat)
    ensures IsDigit(c) ==> d == c as int - '0' as int
  {
    if IsDigit(c) then c as int - '0' as int else 0
  }

  /** The number a string of decimal digits denotes. */
  function DigitsValue(s: string): nat {
    if s == [] then 0
    else DigitsValue(s[..|s| - 1]) * 10 + DigitValue(s[|s| - 1])
  }

  /** `String(n)` for a non-negative integer: shortest decimal digits. */
  function NatToString(n: nat): (r: string)
    ensures |r| >= 1 && AllChars(r, IsDigit)
    ensures r[0] == '0' ==> n == 0 && |r| == 1
    ensures DigitsValue(r) == n
  {
    if n < 10 then [DigitChar(n)]
    else
      var r := NatToString(n / 10) + [DigitChar(n % 10)];
      assert r[..|r| - 1] == NatToString(n / 10);
      r
  }

  /** `String(i)` for any integer: a minus sign and the magnitude's digits. */
  function IntToString(i: int): (r: string)
    ensures |r| >= 1
    ensures i >= 0 ==> AllChars(r, IsDigit) && DigitsValue(r) == i
    ensures i < 0 ==> r[0] == '-' && AllChars(r[1..], IsDigit) && DigitsValue(r[1..]) == -i
  {
    if i < 0 then "-" + NatToString(-i) else NatToString(i)
  }

  /** `s.padStart(2, "0")`. */
  function PadStart2(s: string): (r: string)
    ensures |r| == if |s| >= 2 then |s| else 2
    ensures r[|r| - |s|..] == s
    ensures forall i | 0 <= i < |r| - |s| :: r[i] == '0'
  {
    if |s| >= 2 then s else if |s| == 1 then "0" + s else "00"
  }

  /** `String(n).padStart(2, "0")`: at least two digits, same value. */
  function Pad2(n: nat): (r: string)
    ensures |r| >= 2 && AllChars(r, IsDigit)
    ensures DigitsValue(r) == n
    ensures n < 100 ==> |r| == 2
  {
    var d := NatToString(n);
    Pad2Facts(n, d);
    PadStart2(d)
  }

  /** From two digits on, padding changes nothing. */
  lemma Pad2Wide(n: nat)
    requires n >= 10
    ensures Pad2(n) == NatToString(n)
  {
    Pad2Facts(n, NatToString(n));
  }

  lemma Pad2Facts(n: nat, d: string)
    requires d == NatToString(n)
    ensures AllChars(PadStart2(d), IsDigit) && DigitsValue(PadStart2(d)) == n
    ensures n >= 10 ==> |d| >= 2
    ensures n < 100 ==> |d| <= 2
  {
    var r := PadStart2(d);
    if 10 <= n < 100 {
      assert NatToString(n / 10) == [DigitChar(n / 10)];
    }
    if |d| == 1 {
      assert r[..|r| - 1] == "0";
      assert DigitsValue(d) == DigitValue(d[0]);
    }
  }

  // ---------------------------------------------------------------------
  // ASCII case mapping
  // ---------------------------------------------------------------------

  function AsciiLower(c: char): (r: char)
    ensures 'A' <= c <= 'Z' ==> 'a' <= r <= 'z'
    ensures !('A' <= c <= 'Z') ==> r == c
  {
    if 'A' <= c <= 'Z' then (c as int + 32) as char else c
  }

  function AsciiUpper(c: char): (r: char)
    ensures 'a' <= c <= 'z' ==> 'A' <= r <= 'Z'
    ensures !('a' <= c <= 'z') ==> r == c
  {
    if 'a' <= c <= 'z' then (c as int - 32) as char else c
  }

  function MapChars(s: string, f: char -> char): (r: string)
    ensures |r| == |s|
    ensures forall i | 0 <= i < |s| :: r[i] == f(s[i])
  {
    if s == [] then [] else MapChars(s[..|s| - 1], f) + [f(s[|s| - 1])]
  }

  // ---------------------------------------------------------------------
  // UTF-16 code units (what JavaScript string lengths and slices count)
  // ---------------------------------------------------------------------

  newtype CodeUnit = x: int | 0 <= x < 0x1_0000

  /** The UTF-16 encoding of a text: one unit for a character of the Basic
      Multilingual Plane, a surrogate pair for any other. */
  function Utf16(s: string): (r: seq<CodeUnit>)
    ensures |r| >= |s|
  {
    if s == [] then []
    else
      var c := s[|s| - 1] as int;
      Utf16(s[..|s| - 1])
        + (if c < 0x1_0000 then [c as CodeUnit]
           else [(0xD800 + (c - 0x1_0000) / 0x400) as CodeUnit, (0xDC00 + (c - 0x1_0000) % 0x400) as CodeUnit])
  }

  /** Every character of the text lies in the Basic Multilingual Plane. */
  predicate InBmp(s: string) {
    forall i | 0 <= i < |s| :: s[i] as int < 0x1_0000
  }

  /** Inside the Basic Multilingual Plane code units and characters agree. */
  lemma {:induction false} Utf16Bmp(s: string)
    requires InBmp(s)
    ensures |Utf16(s)| == |s|
    ensures forall i | 0 <= i < |s| :: Utf16(s)[i] as int == s[i] as int
  {
    if s != [] {
      var init := s[..|s| - 1];
      assert InBmp(init) by {
        forall i | 0 <= i < |init|
          ensures init[i] as int < 0x1_0000
        {
          assert init[i] == s[i];
        }
      }
      Utf16Bmp(init);
      var r := Utf16(s);
      assert r == Utf16(init) + [s[|s| - 1] as int as CodeUnit];
      forall i | 0 <= i < |s|
        ensures r[i] as int == s[i] as int
      {
        if i < |s| - 1 {
          assert r[i] == Utf16(init)[i];
          assert init[i] == s[i];
        }
      }
    }
  }

  /** Each character outside the plane takes two units. */
  lemma Utf16Astral(c: char)
    requires c as int >= 0x1_0000
    ensures |Utf16([c])| == 2
  {
    assert [c][..0] == [];
  }
}
