/**
 * The `while` loop of `__replace` exactly as written, for a constant of any
 * length: Python slicing (a negative bound counts from the end, bounds are
 * clamped), `find` returning -1, and the index `second` that survives the
 * rebinding of `line`. Because the loop need not stop, it is run for a
 * bounded number of passes.
 */
module GeneralLoop {
  import opened PyStr
  import FileProcessor

  datatype Option<T> = None | Some(value: T)

  /** A bound of a Python slice: a negative one counts from the end; the result is clamped to 0..n. */
  function Bound(i: int, n: nat): (k: nat)
    ensures k <= n
    ensures 0 <= i <= n ==> k == i
    ensures i < 0 && i + n >= 0 ==> k == i + n
  {
    if i < 0 then (if i + n < 0 then 0 else i + n)
    else if i > n then n
    else i
  }

  /** `s[i:j]` */
  function Slice(s: seq<char>, i: int, j: int): (r: seq<char>)
    ensures 0 <= i <= j <= |s| ==> r == s[i..j]
    ensures i < 0 && 0 <= i + |s| <= j <= |s| ==> r == s[i + |s|..j]
    ensures 0 <= i <= |s| && j < 0 && i <= j + |s| ==> r == s[i..j + |s|]
    ensures Bound(j, |s|) <= Bound(i, |s|) ==> r == []
  {
    var lo, hi := Bound(i, |s|), Bound(j, |s|);
    if lo < hi then s[lo..hi] else []
  }

  /** The variables the loop updates: the rebound `line` and `second`. */
  datatype LoopState = LoopState(line: seq<char>, second: int)

  /** The loop condition: `line[second + 1:len(line)]` still holds a single quote. */
  predicate Continues(st: LoopState)
  {
    '\'' in Slice(st.line, st.second + 1, |st.line|)
  }

  /** One pass of the loop body (lines 33-37). */
  function Step(st: LoopState, constant: seq<char>): (r: LoopState)
    requires st.second >= -1
    ensures r.second >= -1
  {
    var first := Find(st.line, '\'', st.second + 1);
    var second := Find(st.line, '\'', first + 1);
    LoopState(Slice(st.line, 0, first)
              + ReplaceAll(Slice(st.line, first, second), ['"'], constant)
              + Slice(st.line, second, |st.line|),
              second)
  }

  /** The loop run for at most `fuel` passes; None when it has not stopped by then. */
  function Run(st: LoopState, constant: seq<char>, fuel: nat): Option<seq<char>>
    requires st.second >= -1
    decreases fuel
  {
    if !Continues(st) then Some(st.line)
    else if fuel == 0 then None
    else Run(Step(st, constant), constant, fuel - 1)
  }

  /** One line of `__replace` as written, its loop bounded by `fuel` passes. */
  function AsWrittenLine(line: seq<char>, constant: seq<char>, fuel: nat): Option<seq<char>>
  {
    if Count(line, '\'') % 2 != 0 then Some(line)
    else Run(LoopState(line, -1), constant, fuel)
  }

  // ---------------------------------------------------------------------------
  // One-character constants: the code as written does what the scanner says

  /**
   * With a one-character constant the loop stops after at most one pass per
   * quote pair and yields the scanner's output, so the method
   * `FileProcessor.SubstituteInSpans` and this model agree.
   */
  lemma AsWrittenOneChar(line: seq<char>, c: char)
    ensures AsWrittenLine(line, [c], |line|) == Some(FileProcessor.ProcessLine(line, [c]))
  {
    if !FileProcessor.UnevenQuotes(line) {
      assert line[..0] == [];
      RunOneChar(line, c, line, -1, [], |line|);
    }
  }

  /**
   * A line without single quotes fails the loop test at once, so the code
   * returns it unchanged, whatever the constant and the bound on passes.
   */
  lemma NoQuoteAsWritten(line: seq<char>, constant: seq<char>, fuel: nat)
    requires '\'' !in line
    ensures AsWrittenLine(line, constant, fuel) == Some(line)
  {
    CountZero(line, '\'');
    assert Slice(line, 0, |line|) == line;
  }

  /**
   * From any state the loop can reach (`cur` rewritten up to `second`,
   * `spans` the pairs closed so far), enough fuel takes the loop to the
   * scanner's output.
   */
  lemma {:induction false} RunOneChar(line: seq<char>, c: char, cur: seq<char>, second: int, spans: seq<FileProcessor.Span>, fuel: nat)
    requires !FileProcessor.UnevenQuotes(line)
    requires -1 <= second < |line|
    requires FileProcessor.Scanned(line, c, cur, second + 1, spans)
    requires |spans| + fuel >= Count(line, '\'') / 2
    ensures Run(LoopState(cur, second), [c], fuel) == Some(FileProcessor.Scan(line, false, [c]))
    decreases fuel
  {
    if !Continues(LoopState(cur, second)) {
      RunStops(line, c, cur, second, spans, fuel);
    } else {
      var more, cur', second' := OnePass(line, c, cur, second, spans, fuel);
      var rest: nat := fuel - 1;
      RunOneChar(line, c, cur', second', more, rest);
    }
  }

  /** Once no single quote is left after `second` the loop stops, and the line is the scanner's output. */
  lemma RunStops(line: seq<char>, c: char, cur: seq<char>, second: int, spans: seq<FileProcessor.Span>, fuel: nat)
    requires !FileProcessor.UnevenQuotes(line)
    requires -1 <= second < |line|
    requires FileProcessor.Scanned(line, c, cur, second + 1, spans)
    requires !Continues(LoopState(cur, second))
    ensures Run(LoopState(cur, second), [c], fuel) == Some(FileProcessor.Scan(line, false, [c]))
  {
    NoQuoteLeft(LoopState(cur, second));
    FileProcessor.ScanDone(line, c, cur, second + 1, spans);
  }

  /**
   * A pass taken while a single quote is left closes one more span, keeps
   * `Scanned`, and costs the loop one unit of fuel, which it has.
   */
  lemma OnePass(line: seq<char>, c: char, cur: seq<char>, second: int, spans: seq<FileProcessor.Span>, fuel: nat)
    returns (more: seq<FileProcessor.Span>, cur': seq<char>, second': int)
    requires !FileProcessor.UnevenQuotes(line)
    requires -1 <= second < |line|
    requires FileProcessor.Scanned(line, c, cur, second + 1, spans)
    requires |spans| + fuel >= Count(line, '\'') / 2
    requires Continues(LoopState(cur, second))
    ensures second < second' < |line|
    ensures FileProcessor.Scanned(line, c, cur', second' + 1, more)
    ensures fuel > 0 && |more| + (fuel - 1) >= Count(line, '\'') / 2
    ensures Run(LoopState(cur, second), [c], fuel) == Run(LoopState(cur', second'), [c], fuel - 1)
  {
    more, cur', second' := NextState(line, c, cur, second, spans);
    RunSteps(LoopState(cur, second), [c], fuel);
  }

  /** The state after one pass, and the scan state that describes it. */
  lemma NextState(line: seq<char>, c: char, cur: seq<char>, second: int, spans: seq<FileProcessor.Span>)
    returns (more: seq<FileProcessor.Span>, cur': seq<char>, second': int)
    requires !FileProcessor.UnevenQuotes(line)
    requires -1 <= second < |line|
    requires FileProcessor.Scanned(line, c, cur, second + 1, spans)
    requires Continues(LoopState(cur, second))
    ensures LoopState(cur', second') == Step(LoopState(cur, second), [c])
    ensures second < second' < |line|
    ensures FileProcessor.Scanned(line, c, cur', second' + 1, more)
    ensures |more| == |spans| + 1 <= Count(line, '\'') / 2
  {
    QuoteFound(LoopState(cur, second));
    var first;
    first, second' := NextSpan(line, c, cur, second, spans);
    more := spans + [FileProcessor.Span(first, second')];
    cur' := cur[..first] + ReplaceAll(cur[first..second'], ['"'], [c]) + cur[second'..];
    StepInRange(LoopState(cur, second), [c], first, second');
  }

  /** The two quotes the next pass finds, and the scan state after rewriting between them. */
  lemma NextSpan(line: seq<char>, c: char, cur: seq<char>, second: int, spans: seq<FileProcessor.Span>)
    returns (first: int, second': int)
    requires !FileProcessor.UnevenQuotes(line)
    requires -1 <= second < |line|
    requires FileProcessor.Scanned(line, c, cur, second + 1, spans)
    requires Find(cur, '\'', second + 1) != -1
    ensures first == Find(cur, '\'', second + 1)
    ensures second' == Find(cur, '\'', first + 1)
    ensures second < first < second' < |line|
    ensures FileProcessor.Scanned(line, c, cur[..first] + ReplaceAll(cur[first..second'], ['"'], [c]) + cur[second'..],
                                  second' + 1, spans + [FileProcessor.Span(first, second')])
    ensures |spans| + 1 <= Count(line, '\'') / 2
  {
    first := Find(cur, '\'', second + 1);
    second' := Find(cur, '\'', first + 1);
    FileProcessor.ScanOneSpan(line, c, cur, second + 1, spans, first, second');
  }

  /** While a single quote is left, one unit of fuel buys one pass. */
  lemma RunSteps(st: LoopState, constant: seq<char>, fuel: nat)
    requires st.second >= -1
    requires Continues(st) && fuel > 0
    ensures Run(st, constant, fuel) == Run(Step(st, constant), constant, fuel - 1)
  {
  }

  /** While the loop condition holds, `find` sees a single quote after `second`. */
  lemma QuoteFound(st: LoopState)
    requires -1 <= st.second < |st.line|
    requires Continues(st)
    ensures Find(st.line, '\'', st.second + 1) != -1
  {
    var done := st.second + 1;
    assert Slice(st.line, done, |st.line|) == st.line[done..];
    var j :| 0 <= j < |st.line[done..]| && st.line[done..][j] == '\'';
    assert st.line[done + j] == '\'';
  }

  /** When `find` sees a single quote after `second`, the loop condition holds. */
  lemma QuoteResumes(st: LoopState)
    requires -1 <= st.second < |st.line|
    requires Find(st.line, '\'', st.second + 1) != -1
    ensures Continues(st)
  {
    var done := st.second + 1;
    var r := Find(st.line, '\'', done);
    assert Slice(st.line, done, |st.line|) == st.line[done..];
    assert st.line[done..][r - done] == '\'';
  }

  /** Once the loop condition fails, no single quote is left after `second`. */
  lemma NoQuoteLeft(st: LoopState)
    requires -1 <= st.second < |st.line|
    requires !Continues(st)
    ensures forall j :: st.second + 1 <= j < |st.line| ==> st.line[j] != '\''
  {
    var done := st.second + 1;
    assert Slice(st.line, done, |st.line|) == st.line[done..];
    assert forall j :: done <= j < |st.line| ==> st.line[j] == st.line[done..][j - done];
  }

  /** When both quotes are found, a pass is the plain slicing of the loop body. */
  lemma StepInRange(st: LoopState, constant: seq<char>, first: int, second: int)
    requires st.second >= -1
    requires first == Find(st.line, '\'', st.second + 1)
    requires second == Find(st.line, '\'', first + 1)
    requires 0 <= first < second
    ensures Step(st, constant)
         == LoopState(st.line[..first] + ReplaceAll(st.line[first..second], ['"'], constant) + st.line[second..], second)
  {
    assert Slice(st.line, 0, first) == st.line[..first];
    assert Slice(st.line, first, second) == st.line[first..second];
    assert Slice(st.line, second, |st.line|) == st.line[second..];
  }

  // ---------------------------------------------------------------------------
  // Longer constants

  /**
   * With a two-character constant the first rewrite shifts the text, and the
   * search that resumes after the stale `second` pairs the closing quote of
   * the first span with the opening quote of the second: the double quote
   * between the two spans is rewritten too. The scanner keeps it.
   */
  lemma MispairsWithLongerConstant()
    ensures AsWrittenLine("'\"'\"'x'", "QQ", 3) == Some("'QQ'QQ'x'")
    ensures FileProcessor.ProcessLine("'\"'\"'x'", "QQ") == "'QQ'\"'x'"
  {
    var s0 := LoopState("'\"'\"'x'", -1);
    assert Count(s0.line, '\'') == 4;
    TwoSpansPasses();
    TwoSpansScanned();
  }

  /** The three passes of the loop over `'"'"'x'` with the constant `QQ`. */
  lemma TwoSpansPasses()
    ensures Continues(LoopState("'\"'\"'x'", -1))
    ensures Step(LoopState("'\"'\"'x'", -1), "QQ") == LoopState("'QQ'\"'x'", 2)
    ensures Continues(LoopState("'QQ'\"'x'", 2))
    ensures Step(LoopState("'QQ'\"'x'", 2), "QQ") == LoopState("'QQ'QQ'x'", 5)
    ensures Continues(LoopState("'QQ'QQ'x'", 5))
    ensures Step(LoopState("'QQ'QQ'x'", 5), "QQ") == LoopState("'QQ'QQ'x'", 8)
    ensures !Continues(LoopState("'QQ'QQ'x'", 8))
  {
    FirstMispairedPass();
    SecondMispairedPass();
    ThirdMispairedPass();
    assert Slice("'QQ'QQ'x'", 9, 9) == [];
  }

  /** The first pass rewrites the first span `'"`. */
  lemma FirstMispairedPass()
    ensures Continues(LoopState("'\"'\"'x'", -1))
    ensures Step(LoopState("'\"'\"'x'", -1), "QQ") == LoopState("'QQ'\"'x'", 2)
  {
    var st := LoopState("'\"'\"'x'", -1);
    assert Find(st.line, '\'', 0) == 0;
    assert Find(st.line, '\'', 1) == 2;
    QuoteResumes(st);
    StepInRange(st, "QQ", 0, 2);
    assert st.line[0..2] == ['\''] + ['"'];
    assert ReplaceAll(['"'], ['"'], "QQ") == "QQ";
    assert ReplaceAll(['\''] + ['"'], ['"'], "QQ") == ['\''] + ReplaceAll(['"'], ['"'], "QQ");
  }

  /** The second pass resumes after the stale `second` and takes the text between the spans. */
  lemma SecondMispairedPass()
    ensures Continues(LoopState("'QQ'\"'x'", 2))
    ensures Step(LoopState("'QQ'\"'x'", 2), "QQ") == LoopState("'QQ'QQ'x'", 5)
  {
    var st := LoopState("'QQ'\"'x'", 2);
    assert Find(st.line, '\'', 3) == 3;
    assert Find(st.line, '\'', 4) == 5;
    QuoteResumes(st);
    StepInRange(st, "QQ", 3, 5);
    assert st.line[3..5] == ['\''] + ['"'];
    assert ReplaceAll(['"'], ['"'], "QQ") == "QQ";
    assert ReplaceAll(['\''] + ['"'], ['"'], "QQ") == ['\''] + ReplaceAll(['"'], ['"'], "QQ");
  }

  /** The third pass takes `'x`, where there is nothing to rewrite. */
  lemma ThirdMispairedPass()
    ensures Continues(LoopState("'QQ'QQ'x'", 5))
    ensures Step(LoopState("'QQ'QQ'x'", 5), "QQ") == LoopState("'QQ'QQ'x'", 8)
  {
    var st := LoopState("'QQ'QQ'x'", 5);
    assert Find(st.line, '\'', 6) == 6;
    assert Find(st.line, '\'', 7) == 8;
    QuoteResumes(st);
    StepInRange(st, "QQ", 6, 8);
    assert st.line[6..8] == ['\''] + ['x'];
    assert ReplaceAll(['x'], ['"'], "QQ") == ['x'];
    assert ReplaceAll(['\''] + ['x'], ['"'], "QQ") == ['\''] + ReplaceAll(['x'], ['"'], "QQ");
  }

  /** What the scanner makes of the same line. */
  lemma TwoSpansScanned()
    ensures FileProcessor.ProcessLine("'\"'\"'x'", "QQ") == "'QQ'\"'x'"
  {
    var line := "'\"'\"'x'";
    assert Count(line, '\'') == 4;
    assert Count("'\"'", '\'') == 2;
    assert line == "'\"'" + "\"" + "'x'";
    FileProcessor.BetweenSpansUntouched("'\"'", "\"", "'x'", "QQ");
    SpanOfQuoteQQ();
    SpanOfXQQ();
  }

  lemma SpanOfQuoteQQ()
    ensures FileProcessor.ProcessLine("'\"'", "QQ") == "'QQ'"
  {
    assert "'\"'" == ['\''] + "\"" + ['\''];
    FileProcessor.SpanRewrite("\"", "QQ");
    assert ReplaceAll("\"", ['"'], "QQ") == "QQ";
  }

  lemma SpanOfXQQ()
    ensures FileProcessor.ProcessLine("'x'", "QQ") == "'x'"
  {
    assert "'x'" == ['\''] + "x" + ['\''];
    FileProcessor.SpanRewrite("x", "QQ");
    assert ReplaceAll("x", ['"'], "QQ") == "x";
  }

  // ---------------------------------------------------------------------------
  // The empty constant

  /**
   * With the empty constant the first rewrite shifts the text to the left,
   * and the search that resumes after the stale `second` pairs the closing
   * quote of the second span with the opening quote of the third: the
   * double quote between those two spans is deleted. The scanner keeps it.
   */
  lemma MispairsWithEmptyConstant()
    ensures AsWrittenLine("'\"'" + "'x'" + "\"''", [], 2) == Some("'''x'''")
    ensures FileProcessor.ProcessLine("'\"'" + "'x'" + "\"''", []) == "''" + "'x'" + "\"''"
  {
    EmptyConstantCount();
    assert "'\"'" + "'x'" + "\"''" == "'\"''x'\"''";
    EmptyFirstPass();
    EmptySecondPass();
    assert Slice("'''x'''", 7, 7) == [];
    EmptyConstantScanned();
  }

  lemma EmptyConstantCount()
    ensures Count("'\"'" + "'x'" + "\"''", '\'') == 6
  {
    assert Count("'\"'", '\'') == 2;
    assert Count("'x'", '\'') == 2;
    assert Count("\"''", '\'') == 2;
    CountAppend("'\"'", "'x'", '\'');
    CountAppend("'\"'" + "'x'", "\"''", '\'');
  }

  /** The first pass rewrites the first span `'"` to `'`. */
  lemma EmptyFirstPass()
    ensures Continues(LoopState("'\"''x'\"''", -1))
    ensures Step(LoopState("'\"''x'\"''", -1), []) == LoopState("'''x'\"''", 2)
  {
    var st := LoopState("'\"''x'\"''", -1);
    EmptyFirstFinds();
    QuoteResumes(st);
    StepInRange(st, [], 0, 2);
    QuoteThenDoubleDropped();
  }

  lemma EmptyFirstFinds()
    ensures Find("'\"''x'\"''", '\'', 0) == 0
    ensures Find("'\"''x'\"''", '\'', 1) == 2
    ensures "'\"''x'\"''"[0..2] == ['\''] + ['"']
  {
  }

  /** The second pass resumes after the stale `second` and takes `'"`, the text between the second and the third span. */
  lemma EmptySecondPass()
    ensures Continues(LoopState("'''x'\"''", 2))
    ensures Step(LoopState("'''x'\"''", 2), []) == LoopState("'''x'''", 6)
  {
    var st := LoopState("'''x'\"''", 2);
    EmptySecondFinds();
    QuoteResumes(st);
    StepInRange(st, [], 4, 6);
    assert st.line[4..6] == ['\''] + ['"'];
    QuoteThenDoubleDropped();
  }

  lemma EmptySecondFinds()
    ensures Find("'''x'\"''", '\'', 3) == 4
    ensures Find("'''x'\"''", '\'', 5) == 6
  {
  }

  /** `'"` with the double quote replaced by nothing. */
  lemma QuoteThenDoubleDropped()
    ensures ReplaceAll(['\''] + ['"'], ['"'], []) == ['\'']
  {
    assert ReplaceAll(['"'], ['"'], []) == [];
    assert ReplaceAll(['\''] + ['"'], ['"'], []) == ['\''] + ReplaceAll(['"'], ['"'], []);
  }

  /** What the scanner makes of the same line: three spans, the double quote between the last two kept. */
  lemma EmptyConstantScanned()
    ensures FileProcessor.ProcessLine("'\"'" + "'x'" + "\"''", []) == "''" + "'x'" + "\"''"
  {
    EmptyConstantCount();
    assert Count("'\"'" + "'x'", '\'') == 4 by {
      assert Count("'\"'", '\'') == 2;
      assert Count("'x'", '\'') == 2;
      CountAppend("'\"'", "'x'", '\'');
    }
    assert "\"''" == "\"" + "''";
    AppendAssoc("'\"'" + "'x'", "\"", "''");
    FileProcessor.BetweenSpansUntouched("'\"'" + "'x'", "\"", "''", []);
    assert "'\"'" + "'x'" == "'\"'" + [] + "'x'";
    FileProcessor.BetweenSpansUntouched("'\"'", [], "'x'", []);
    EmptyConstantSpans();
  }

  lemma EmptyConstantSpans()
    ensures FileProcessor.ProcessLine("'\"'", []) == "''"
    ensures FileProcessor.ProcessLine("'x'", []) == "'x'"
    ensures FileProcessor.ProcessLine("''", []) == "''"
  {
    assert "'\"'" == ['\''] + "\"" + ['\''];
    FileProcessor.SpanRewrite("\"", []);
    assert ReplaceAll("\"", ['"'], []) == [];
    assert "'x'" == ['\''] + "x" + ['\''];
    FileProcessor.SpanRewrite("x", []);
    assert ReplaceAll("x", ['"'], []) == "x";
    assert "''" == ['\''] + [] + ['\''];
    FileProcessor.SpanRewrite([], []);
  }

  /** `'` followed by k double quotes and a closing `'`. */
  function Wrapped(k: nat): (s: seq<char>)
    ensures |s| == k + 2
  {
    ['\''] + seq(k, _ => '"') + ['\'']
  }

  lemma {:induction false} DoublesQuotes(k: nat)
    ensures ReplaceAll(seq(k, _ => '"'), ['"'], "\"\"") == seq(2 * k, _ => '"')
  {
    var s := seq(k, _ => '"');
    if k > 0 {
      assert s[..1] == ['"'];
      assert s[1..] == seq(k - 1, _ => '"');
      DoublesQuotes(k - 1);
      assert seq(2 * k, _ => '"') == "\"\"" + seq(2 * (k - 1), _ => '"');
    }
  }

  /** The first pass over `Wrapped(k)` doubles the double quotes and leaves `second` on the old closing quote. */
  lemma FirstPass(k: nat)
    requires k >= 1
    ensures Continues(LoopState(Wrapped(k), -1))
    ensures Step(LoopState(Wrapped(k), -1), "\"\"") == LoopState(Wrapped(2 * k), k + 1)
  {
    var w := Wrapped(k);
    assert w[0] == '\'';
    assert Slice(w, 0, |w|) == w;
    var second := Find(w, '\'', 1);
    assert w[k + 1] == '\'';
    assert forall j :: 1 <= j <= k ==> w[j] == '"';
    assert second == k + 1;
    var head := Slice(w, 0, k + 1);
    assert head == ['\''] + seq(k, _ => '"');
    DoublesQuotes(k);
    assert head[..1] == ['\''];
    assert head[1..] == seq(k, _ => '"');
    assert ReplaceAll(head, ['"'], "\"\"") == ['\''] + seq(2 * k, _ => '"');
    assert Slice(w, k + 1, |w|) == ['\''];
    assert Slice(w, 0, 0) == [];
  }

  /**
   * The second pass finds the last quote as `first`, no quote after it
   * (`second` is -1), rewrites the empty slice `line[first:-1]` and leaves
   * the line as it was, so the scan starts again from the beginning.
   */
  lemma SecondPass(k: nat)
    requires k >= 1
    ensures Continues(LoopState(Wrapped(2 * k), k + 1))
    ensures Step(LoopState(Wrapped(2 * k), k + 1), "\"\"") == LoopState(Wrapped(2 * k), -1)
  {
    var w := Wrapped(2 * k);
    var n := |w|;
    assert w[n - 1] == '\'';
    assert forall j :: 1 <= j <= 2 * k ==> w[j] == '"';
    assert Slice(w, k + 2, n) == w[k + 2..];
    assert w[k + 2..][n - 1 - (k + 2)] == '\'';
    var first := Find(w, '\'', k + 2);
    assert first == n - 1;
    assert Find(w, '\'', n) == -1;
    assert Slice(w, 0, n - 1) == w[..n - 1];
    assert Slice(w, n - 1, -1) == [];
    assert ReplaceAll([], ['"'], "\"\"") == [];
    assert w[n - 1..n] == [w[n - 1]];
    assert Slice(w, -1, n) == w[n - 1..n];
    assert w[..n - 1] + [] + w[n - 1..n] == w;
  }

  /** From `Wrapped(k)` with `second == -1` the loop never stops: every two passes double the quotes and restart. */
  lemma {:induction false} NeverStops(k: nat, fuel: nat)
    requires k >= 1
    ensures Run(LoopState(Wrapped(k), -1), "\"\"", fuel) == None
    decreases fuel
  {
    FirstPass(k);
    if fuel >= 2 {
      SecondPass(k);
      NeverStops(2 * k, fuel - 2);
    } else if fuel == 1 {
      SecondPass(k);
    }
  }

  /**
   * The constant `""` makes the loop run forever on the line `'"'`, where
   * the scanner gives `'""'`.
   */
  lemma NeverStopsOnOneSpan(fuel: nat)
    ensures AsWrittenLine("'\"'", "\"\"", fuel) == None
    ensures FileProcessor.ProcessLine("'\"'", "\"\"") == "'\"\"'"
  {
    OneSpanLoops(fuel);
    OneSpanScanned();
  }

  lemma OneSpanLoops(fuel: nat)
    ensures AsWrittenLine("'\"'", "\"\"", fuel) == None
  {
    assert Wrapped(1) == "'\"'";
    assert Count("'\"'", '\'') == 2;
    NeverStops(1, fuel);
  }

  lemma OneSpanScanned()
    ensures FileProcessor.ProcessLine("'\"'", "\"\"") == "'\"\"'"
  {
    FileProcessor.SpanRewrite("\"", "\"\"");
    assert "'\"'" == ['\''] + "\"" + ['\''];
    assert ReplaceAll("\"", ['"'], "\"\"") == "\"\"";
  }
}
