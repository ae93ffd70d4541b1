/**
 * The character scanner that splits the text between the parentheses of a
 * `VALUES (...)` clause into individual SQL values
 * (supabase/seeds/eysh/transform_seeds_v2.py, lines 39-65).
 *
 * The scanner state is the triple (inString, quoteChar, depth). A comma
 * separates two values only outside any quoted string and at parenthesis
 * depth 0. The functional reference `PiecesFrom` reads the text from the
 * front; `SplitValues` is the loop the script runs, proved equal to it.
 */
module ValueSplitter {
  import opened Wrappers
  import opened Text

  datatype ScanState = ScanState(inString: bool, quoteChar: Option<char>, depth: int)

  /** The state before the first character. */
  const Start := ScanState(false, None, 0)

  /** Inside a string exactly when an opening quote is remembered. */
  predicate WellFormed(st: ScanState) {
    st.inString <==> st.quoteChar.Some?
  }

  predicate IsQuote(c: char) {
    c == '"' || c == '\''
  }

  /** A quote opens a string from outside one, and closes only the string it opened. */
  predicate Toggles(st: ScanState, c: char) {
    IsQuote(c) && (!st.inString || st.quoteChar == Some(c))
  }

  /** The comma that ends a value. */
  predicate IsSeparator(st: ScanState, c: char) {
    c == ',' && !st.inString && st.depth == 0
  }

  /** The state after reading one character. */
  function Step(st: ScanState, c: char): (r: ScanState)
    ensures WellFormed(st) ==> WellFormed(r)
    // a quote from outside a string opens one and remembers which quote it was
    ensures !st.inString && IsQuote(c) ==> r == ScanState(true, Some(c), st.depth)
    // the quote that opened the string closes it
    ensures st.inString && IsQuote(c) && st.quoteChar == Some(c) ==> r == ScanState(false, None, st.depth)
    // inside a string every other character, the other quote and both parentheses included, changes nothing
    ensures st.inString && st.quoteChar != Some(c) ==> r == st
    // outside a string only parentheses move the depth, by exactly one
    ensures !st.inString && c == '(' ==> r == st.(depth := st.depth + 1)
    ensures !st.inString && c == ')' ==> r == st.(depth := st.depth - 1)
    ensures !st.inString && !IsQuote(c) && c != '(' && c != ')' ==> r == st
  {
    if Toggles(st, c) then
      var inString := !st.inString;
      ScanState(inString, if inString then Some(c) else None, st.depth)
    else if c == '(' && !st.inString then st.(depth := st.depth + 1)
    else if c == ')' && !st.inString then st.(depth := st.depth - 1)
    else st
  }

  /** The state after reading all of `s`. */
  function RunFrom(st: ScanState, s: string): ScanState
    decreases |s|
  {
    if s == [] then st else RunFrom(Step(st, s[0]), s[1..])
  }

  /** Reading `s` from `st` meets no separating comma. */
  predicate NoSepFrom(s: string, st: ScanState)
    decreases |s|
  {
    s == [] || (!IsSeparator(st, s[0]) && NoSepFrom(s[1..], Step(st, s[0])))
  }

  /**
   * The raw (unstripped) pieces between separating commas, the last one being
   * whatever is left after the final separator.
   */
  function PiecesFrom(s: string, st: ScanState): (r: seq<string>)
    ensures |r| >= 1
    decreases |s|
  {
    if s == [] then [""]
    else
      var rest := PiecesFrom(s[1..], Step(st, s[0]));
      if IsSeparator(st, s[0]) then [""] + rest else Prepend([s[0]], rest)
  }

  /** The pieces joined by "," give the text back: the splitter loses only the
      separating commas. */
  lemma {:induction false} PiecesJoin(s: string, st: ScanState)
    ensures Join(PiecesFrom(s, st), ",") == s
    decreases |s|
  {
    if s != [] {
      var rest := PiecesFrom(s[1..], Step(st, s[0]));
      PiecesJoin(s[1..], Step(st, s[0]));
      if IsSeparator(st, s[0]) {
        JoinFront("", rest, ",");
      } else {
        PrependJoin([s[0]], rest, ",");
      }
      assert s == [s[0]] + s[1..];
    }
  }

  /** The raw pieces of a whole value list. */
  function Pieces(s: string): (r: seq<string>)
    ensures |r| >= 1 && Join(r, ",") == s
  {
    PiecesJoin(s, Start);
    PiecesFrom(s, Start)
  }

  function StripAll(ps: seq<string>): (r: seq<string>)
    ensures |r| == |ps|
    ensures forall i | 0 <= i < |ps| :: r[i] == PyStrip(ps[i])
  {
    if ps == [] then [] else StripAll(ps[..|ps| - 1]) + [PyStrip(ps[|ps| - 1])]
  }

  lemma StripAllSnoc(ps: seq<string>, p: string)
    ensures StripAll(ps + [p]) == StripAll(ps) + [PyStrip(p)]
  {
    assert (ps + [p])[..|ps|] == ps;
  }

  /**
   * The script's value list: every piece that ended at a separator, stripped,
   * empty ones included; then the final piece, stripped, only if it is not empty.
   */
  function Values(s: string): (r: seq<string>)
    ensures var p := Pieces(s);
      && |r| == (if PyStrip(p[|p| - 1]) == [] then |p| - 1 else |p|)
      && forall i | 0 <= i < |r| :: r[i] == PyStrip(p[i])
  {
    FinishPieces(Pieces(s))
  }

  function FinishPieces(p: seq<string>): seq<string>
    requires |p| >= 1
  {
    var last := PyStrip(p[|p| - 1]);
    StripAll(p[..|p| - 1]) + (if last == [] then [] else [last])
  }

  /**
   * The loop of the script: one pass over the characters, with the state held
   * in three variables. The ghost `done` holds the raw pieces already closed.
   */
  method SplitValues(text: string) returns (vals: seq<string>)
    ensures vals == Values(text)
  {
    vals := [];
    var current := "";
    var inString := false;
    var quoteChar: Option<char> := None;
    var depth := 0;
    ghost var done: seq<string> := [];
    var i := 0;
    assert text[0..] == text;
    AccumulatePieces(text, Start, [], "");
    PrependEmpty(PiecesFrom(text, Start));
    while i < |text|
      invariant 0 <= i <= |text|
      invariant vals == StripAll(done)
      invariant PiecesFrom(text, Start) == Accumulate(text[i..], ScanState(inString, quoteChar, depth), done, current)
    {
      var c := text[i];
      assert text[i..][0] == c && text[i..][1..] == text[i + 1..];
      if IsQuote(c) && (!inString || Some(c) == quoteChar) {
        inString := !inString;
        quoteChar := if inString then Some(c) else None;
        current := current + [c];
      } else if c == '(' && !inString {
        depth := depth + 1;
        current := current + [c];
      } else if c == ')' && !inString {
        depth := depth - 1;
        current := current + [c];
      } else if c == ',' && !inString && depth == 0 {
        StripAllSnoc(done, current);
        vals := vals + [PyStrip(current)];
        done := done + [current];
        current := "";
      } else {
        current := current + [c];
      }
      i := i + 1;
    }
    assert text[i..] == [];
    if PyStrip(current) != [] {
      vals := vals + [PyStrip(current)];
    }
    FinishValues(text, done, current);
  }

  /** The loop's own bookkeeping: the pieces closed so far, the piece being
      built, and what is left to read. */
  function Accumulate(s: string, st: ScanState, done: seq<string>, cur: string): seq<string>
    decreases |s|
  {
    if s == [] then done + [cur]
    else if IsSeparator(st, s[0]) then Accumulate(s[1..], Step(st, s[0]), done + [cur], "")
    else Accumulate(s[1..], Step(st, s[0]), done, cur + [s[0]])
  }

  /** The loop's bookkeeping builds the reference pieces. */
  lemma {:induction false} AccumulatePieces(s: string, st: ScanState, done: seq<string>, cur: string)
    ensures Accumulate(s, st, done, cur) == done + Prepend(cur, PiecesFrom(s, st))
    decreases |s|
  {
    if s == [] {
      assert cur + "" == cur;
      assert Prepend(cur, [""]) == [cur];
    } else if IsSeparator(st, s[0]) {
      AccumulatePieces(s[1..], Step(st, s[0]), done + [cur], "");
      AccumulateSeparator(s, st, done, cur);
    } else {
      AccumulatePieces(s[1..], Step(st, s[0]), done, cur + [s[0]]);
      AccumulateOther(s, st, done, cur);
    }
  }

  lemma AccumulateSeparator(s: string, st: ScanState, done: seq<string>, cur: string)
    requires s != [] && IsSeparator(st, s[0])
    requires var st' := Step(st, s[0]);
      Accumulate(s[1..], st', done + [cur], "") == (done + [cur]) + Prepend("", PiecesFrom(s[1..], st'))
    ensures Accumulate(s, st, done, cur) == done + Prepend(cur, PiecesFrom(s, st))
  {
    var rest := PiecesFrom(s[1..], Step(st, s[0]));
    PiecesStep(s, st, cur);
    ClosePiece(done, cur, rest);
  }

  lemma ClosePiece(done: seq<string>, cur: string, rest: seq<string>)
    requires |rest| >= 1
    ensures (done + [cur]) + Prepend("", rest) == done + ([cur] + rest)
  {
    PrependEmpty(rest);
  }

  lemma AccumulateOther(s: string, st: ScanState, done: seq<string>, cur: string)
    requires s != [] && !IsSeparator(st, s[0])
    requires var st' := Step(st, s[0]);
      Accumulate(s[1..], st', done, cur + [s[0]]) == done + Prepend(cur + [s[0]], PiecesFrom(s[1..], st'))
    ensures Accumulate(s, st, done, cur) == done + Prepend(cur, PiecesFrom(s, st))
  {
    PiecesStep(s, st, cur);
  }

  /** Prepending nothing changes nothing. */
  lemma PrependEmpty(r: seq<string>)
    requires |r| >= 1
    ensures Prepend("", r) == r
  {
    assert "" + r[0] == r[0];
  }

  lemma FinishValues(text: string, done: seq<string>, current: string)
    requires PiecesFrom(text, Start) == done + [current]
    ensures Values(text) == StripAll(done) + (if PyStrip(current) == [] then [] else [PyStrip(current)])
  {
    var p := Pieces(text);
    assert p[..|p| - 1] == done;
  }

  // -----------------------------------------------------------------------
  // How separators shape the pieces
  // -----------------------------------------------------------------------

  /** One character of the loop: a separator closes the current piece, any
      other character is appended to it. */
  lemma PiecesStep(s: string, st: ScanState, cur: string)
    requires s != []
    ensures IsSeparator(st, s[0]) ==>
      Prepend(cur, PiecesFrom(s, st)) == [cur] + PiecesFrom(s[1..], Step(st, s[0]))
    ensures !IsSeparator(st, s[0]) ==>
      Prepend(cur, PiecesFrom(s, st)) == Prepend(cur + [s[0]], PiecesFrom(s[1..], Step(st, s[0])))
  {
    var rest := PiecesFrom(s[1..], Step(st, s[0]));
    if IsSeparator(st, s[0]) {
      assert cur + "" == cur;
    } else {
      assert cur + ([s[0]] + rest[0]) == (cur + [s[0]]) + rest[0];
    }
  }

  /** Text without a separating comma is a single piece. */
  lemma PiecesNoSep(u: string, st: ScanState)
    requires NoSepFrom(u, st)
    ensures PiecesFrom(u, st) == [u]
  {
    NoSplitInside(u, [], st);
    assert u + [] == u && u + "" == u;
  }

  lemma {:induction false} RunConcat(st: ScanState, a: string, b: string)
    ensures RunFrom(st, a + b) == RunFrom(RunFrom(st, a), b)
    ensures NoSepFrom(a + b, st) <==> NoSepFrom(a, st) && NoSepFrom(b, RunFrom(st, a))
    decreases |a|
  {
    if a != [] {
      assert (a + b)[0] == a[0] && (a + b)[1..] == a[1..] + b;
      RunConcat(Step(st, a[0]), a[1..], b);
    } else {
      assert a + b == b;
    }
  }

  /** Text without a separating comma stays glued to whatever piece follows:
      commas inside strings or parentheses do not split. */
  lemma {:induction false} NoSplitInside(u: string, w: string, st: ScanState)
    requires NoSepFrom(u, st)
    ensures PiecesFrom(u + w, st) == Prepend(u, PiecesFrom(w, RunFrom(st, u)))
    decreases |u|
  {
    var x := PiecesFrom(w, RunFrom(st, u));
    if u == [] {
      assert u + w == w;
      assert u + x[0] == x[0];
    } else {
      var c, st1 := u[0], Step(st, u[0]);
      assert RunFrom(st, u) == RunFrom(st1, u[1..]);
      NoSplitInside(u[1..], w, st1);
      var y := PiecesFrom(u[1..] + w, st1);
      assert y == Prepend(u[1..], x);
      assert (u + w)[0] == c && (u + w)[1..] == u[1..] + w;
      assert PiecesFrom(u + w, st) == Prepend([c], y);
      assert [c] + (u[1..] + x[0]) == u + x[0];
    }
  }

  /** A comma read outside any string at depth 0 ends the value before it. */
  lemma SplitAtSeparator(u: string, w: string, st: ScanState)
    requires NoSepFrom(u, st) && IsSeparator(RunFrom(st, u), ',')
    ensures PiecesFrom(u + "," + w, st) == [u] + PiecesFrom(w, RunFrom(st, u))
  {
    var st' := RunFrom(st, u);
    var cw := "," + w;
    NoSplitInside(u, cw, st);
    assert u + "," + w == u + cw;
    assert cw[0] == ',' && cw[1..] == w;
    assert Step(st', ',') == st';
    var x := PiecesFrom(w, st');
    assert PiecesFrom(cw, st') == [""] + x;
    assert Prepend(u, [""] + x) == [u] + x by {
      assert u + "" == u;
    }
  }

  // -----------------------------------------------------------------------
  // Closed values: the ones that survive a render-and-split round trip
  // -----------------------------------------------------------------------

  /** A value that the scanner reads from the start state back to the start
      state without meeting a separator: balanced quotes and parentheses. */
  predicate Closed(v: string) {
    RunFrom(Start, v) == Start && NoSepFrom(v, Start)
  }

  /** Joining closed values with commas and splitting again gives them back. */
  lemma {:induction false} ClosedJoinPieces(vs: seq<string>)
    requires |vs| >= 1
    requires forall i | 0 <= i < |vs| :: Closed(vs[i])
    ensures Pieces(Join(vs, ",")) == vs
    decreases |vs|
  {
    if |vs| == 1 {
      PiecesNoSep(vs[0], Start);
    } else {
      JoinCons(vs, ",");
      ClosedJoinPieces(vs[1..]);
      SplitAtSeparator(vs[0], Join(vs[1..], ","), Start);
      assert [vs[0]] + vs[1..] == vs;
    }
  }

  /** Joining closed values with commas and reading the value list back gives
      the values, stripped; the last one must strip to something, as that is
      the rule for the final value. */
  lemma ClosedJoinValues(f: seq<string>, vals: seq<string>)
    requires |f| >= 1 && |f| == |vals|
    requires forall i | 0 <= i < |f| :: Closed(f[i]) && PyStrip(f[i]) == vals[i]
    requires vals[|vals| - 1] != []
    ensures Values(Join(f, ",")) == vals
  {
    ClosedJoinPieces(f);
    FinishOfStripped(f, vals);
  }

  lemma FinishOfStripped(f: seq<string>, vals: seq<string>)
    requires |f| >= 1 && |f| == |vals|
    requires forall i | 0 <= i < |f| :: PyStrip(f[i]) == vals[i]
    requires vals[|vals| - 1] != []
    ensures FinishPieces(f) == vals
  {
    var n := |f|;
    StripAllParts(f[..n - 1], vals[..n - 1]);
    SplitLast(vals);
  }

  /** Closed pieces that strip to the given values, one for one. */
  predicate ReadsAs(f: seq<string>, vals: seq<string>) {
    |f| == |vals| && forall i | 0 <= i < |f| :: Closed(f[i]) && PyStrip(f[i]) == vals[i]
  }

  /** The script's rule for the final value, seen from the other side: when the
      last closed value strips to nothing, the value list loses it. */
  lemma ClosedJoinDropsLast(f: seq<string>, vals: seq<string>)
    requires |f| >= 1 && ReadsAs(f, vals)
    requires vals[|vals| - 1] == []
    ensures Values(Join(f, ",")) == vals[..|vals| - 1]
  {
    ClosedJoinPieces(f);
    FinishDropsLast(f, vals);
  }

  lemma FinishDropsLast(f: seq<string>, vals: seq<string>)
    requires |f| >= 1 && |f| == |vals|
    requires forall i | 0 <= i < |f| :: PyStrip(f[i]) == vals[i]
    requires vals[|vals| - 1] == []
    ensures FinishPieces(f) == vals[..|vals| - 1]
  {
    var n := |f|;
    StripAllParts(f[..n - 1], vals[..n - 1]);
  }

  /**
   * The value list as the pairing evidently needs it: every piece stripped,
   * the final one included even when it is empty, so that values stay
   * aligned with their columns.
   */
  function ValuesKeepingLast(s: string): (r: seq<string>)
    ensures var p := Pieces(s);
      && |r| == |p|
      && forall i | 0 <= i < |r| :: r[i] == PyStrip(p[i])
  {
    StripAll(Pieces(s))
  }

  /** The corrected value list differs from the script's only by the empty
      final value the script drops. */
  lemma KeepingLastAgrees(s: string)
    ensures var p := Pieces(s);
      && (PyStrip(p[|p| - 1]) != [] ==> ValuesKeepingLast(s) == Values(s))
      && (PyStrip(p[|p| - 1]) == [] ==> ValuesKeepingLast(s) == Values(s) + [""])
  {
    var p := Pieces(s);
    assert StripAll(p) == StripAll(p[..|p| - 1]) + [PyStrip(p[|p| - 1])] by {
      SplitLast(p);
      StripAllSnoc(p[..|p| - 1], p[|p| - 1]);
    }
  }

  /** Joining closed values with commas and reading them back with the
      corrected rule gives every value, the empty ones included. */
  lemma ClosedJoinKeepsAll(f: seq<string>, vals: seq<string>)
    requires |f| >= 1 && ReadsAs(f, vals)
    ensures ValuesKeepingLast(Join(f, ",")) == vals
  {
    ClosedJoinPieces(f);
    StripAllParts(f, vals);
  }

  lemma StripAllParts(f: seq<string>, xs: seq<string>)
    requires |f| == |xs| && forall i | 0 <= i < |f| :: PyStrip(f[i]) == xs[i]
    ensures StripAll(f) == xs
  {
  }

  /** Whitespace around closed values does not change them as values. */
  lemma ClosedPadded(a: string, v: string, b: string)
    requires Closed(v)
    requires AllChars(a, IsPyWhitespace) && AllChars(b, IsPyWhitespace)
    ensures Closed(a + v + b)
  {
    PlainRun(a, Start);
    PlainRun(b, Start);
    RunConcat(Start, a, v);
    RunConcat(Start, a + v, b);
  }

  /** Characters that are neither quotes nor parentheses leave the state alone;
      they separate only if they are commas read at depth 0 outside a string. */
  lemma {:induction false} PlainRun(u: string, st: ScanState)
    requires forall i | 0 <= i < |u| :: !IsQuote(u[i]) && u[i] != '(' && u[i] != ')'
    requires st.inString || st.depth != 0 || ',' !in u
    ensures RunFrom(st, u) == st && NoSepFrom(u, st)
    decreases |u|
  {
    if u != [] {
      assert u[0] in u;
      PlainRun(u[1..], st);
    }
  }

  /** Inside a string, text free of the opening quote changes nothing. */
  lemma {:induction false} InStringRun(u: string, st: ScanState)
    requires st.inString && st.quoteChar.Some? && st.quoteChar.value !in u
    ensures RunFrom(st, u) == st && NoSepFrom(u, st)
    decreases |u|
  {
    if u != [] {
      assert u[0] in u;
      InStringRun(u[1..], st);
    }
  }

  /** A quoted literal is closed, whatever commas, parentheses or other quotes
      it holds, as long as its own quote does not occur inside. */
  lemma QuotedLiteralClosed(q: char, body: string)
    requires IsQuote(q) && q !in body
    ensures Closed([q] + body + [q])
  {
    var inside := ScanState(true, Some(q), 0);
    InStringRun(body, inside);
    RunConcat(Start, [q], body);
    RunConcat(Start, [q] + body, [q]);
  }

  /** A call such as `now()` or `coalesce(a, b)`: a quote-free, paren-free name
      followed by a parenthesised quote-free, paren-free argument list. */
  lemma CallClosed(name: string, args: string)
    requires forall i | 0 <= i < |name| :: !IsQuote(name[i]) && name[i] != '(' && name[i] != ')' && name[i] != ','
    requires forall i | 0 <= i < |args| :: !IsQuote(args[i]) && args[i] != '(' && args[i] != ')'
    ensures Closed(name + "(" + args + ")")
  {
    assert ',' !in name;
    PlainRun(name, Start);
    var open := Start.(depth := 1);
    PlainRun(args, open);
    RunConcat(Start, name, "(");
    RunConcat(Start, name + "(", args);
    RunConcat(Start, name + "(" + args, ")");
  }

  /** Closed values stay closed when written one after the other. */
  lemma ConcatClosed(a: string, b: string)
    requires Closed(a) && Closed(b)
    ensures Closed(a + b)
  {
    RunConcat(Start, a, b);
  }
}
