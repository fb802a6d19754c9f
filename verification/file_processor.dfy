/**
 * The line-wise quote substitution of `fileProcessor.py`.
 *
 * `process` rewrites every double quote that stands between a pair of single
 * quotes on a line into a caller-chosen constant; `unprocess` turns every
 * occurrence of that constant back into a double quote. Single quotes pair up
 * from the left of each line: the 1st with the 2nd, the 3rd with the 4th, and
 * so on. A line with an uneven number of single quotes is left as it is.
 */
module FileProcessor {
  import opened PyStr

  type Line = seq<char>

  /** A pair of single quotes found by the scan: the indices of the opening and the closing quote. */
  datatype Span = Span(open: nat, close: nat)

  predicate UnevenQuotes(s: Line)
  {
    Count(s, '\'') % 2 == 1
  }

  /** Position `i` lies strictly inside a span: an odd number of single quotes comes before it, and it is not one itself. */
  predicate InSpan(line: Line, i: nat)
    requires i < |line|
  {
    UnevenQuotes(line[..i]) && line[i] != '\''
  }

  /**
   * The scanner as a two-state machine. `quoted` is false while SCANNING
   * (outside a span) and true while IN_SPAN; every single quote toggles it,
   * and a double quote read IN_SPAN is emitted as `constant`.
   */
  function Scan(s: Line, quoted: bool, constant: seq<char>): Line
  {
    if s == [] then []
    else if s[0] == '\'' then [s[0]] + Scan(s[1..], !quoted, constant)
    else if s[0] == '"' && quoted then constant + Scan(s[1..], quoted, constant)
    else [s[0]] + Scan(s[1..], quoted, constant)
  }

  /** What the substitution should make of one line. */
  function ProcessLine(line: Line, constant: seq<char>): Line
  {
    if UnevenQuotes(line) then line else Scan(line, false, constant)
  }

  /** `spans[k]` covers position `i` strictly between its quotes. */
  ghost predicate Covers(spans: seq<Span>, i: nat)
  {
    exists k :: 0 <= k < |spans| && spans[k].open < i < spans[k].close
  }

  /** `sp` joins the (2k+1)-th and the (2k+2)-th single quote of `line` (k counted from 0). */
  ghost predicate PairsQuotes(line: Line, sp: Span, k: nat)
  {
    && sp.open < sp.close < |line|
    && line[sp.open] == '\'' && line[sp.close] == '\''
    && Count(line[..sp.open], '\'') == 2 * k
    && Count(line[..sp.close], '\'') == 2 * k + 1
  }

  // ---------------------------------------------------------------------------
  // The scanner, position by position

  lemma {:induction false} ScanAt(s: Line, quoted: bool, c: char)
    ensures |Scan(s, quoted, [c])| == |s|
    ensures forall i :: 0 <= i < |s| ==>
      Scan(s, quoted, [c])[i] == (if s[i] == '"' && quoted != UnevenQuotes(s[..i]) then c else s[i])
  {
    if s != [] {
      var next := if s[0] == '\'' then !quoted else quoted;
      ScanAt(s[1..], next, c);
      assert s[..0] == [];
      forall i | 0 < i < |s|
        ensures UnevenQuotes(s[..i]) == ((s[0] == '\'') != UnevenQuotes(s[1..][..i - 1]))
      {
        assert s[..i][1..] == s[1..][..i - 1];
      }
    }
  }

  /**
   * Locality, for a one-character constant: on a line with an even number of
   * single quotes exactly the double quotes strictly inside a span become the
   * constant; every other position, the delimiters included, is kept. A line
   * with an uneven count comes back unchanged.
   */
  lemma ProcessLineAt(line: Line, c: char)
    ensures |ProcessLine(line, [c])| == |line|
    ensures forall i :: 0 <= i < |line| ==>
      ProcessLine(line, [c])[i] == (if line[i] == '"' && !UnevenQuotes(line) && InSpan(line, i) then c else line[i])
  {
    ScanAt(line, false, c);
  }

  /** With a constant other than a single quote, the single quotes stay where they were and as many. */
  lemma QuotesPreserved(line: Line, c: char)
    requires c != '\''
    ensures |ProcessLine(line, [c])| == |line|
    ensures forall i :: 0 <= i < |line| ==> (ProcessLine(line, [c])[i] == '\'' <==> line[i] == '\'')
    ensures Count(ProcessLine(line, [c]), '\'') == Count(line, '\'')
  {
    ProcessLineAt(line, c);
    CountAgrees(ProcessLine(line, [c]), line, '\'');
  }

  /** Running the substitution a second time changes nothing. */
  lemma ProcessIdempotent(line: Line, c: char)
    requires c != '\''
    ensures ProcessLine(ProcessLine(line, [c]), [c]) == ProcessLine(line, [c])
  {
    var once := ProcessLine(line, [c]);
    QuotesPreserved(line, c);
    ProcessLineAt(line, c);
    ProcessLineAt(once, c);
    forall i | 0 <= i < |line|
      ensures UnevenQuotes(once[..i]) == UnevenQuotes(line[..i])
    {
      CountAgrees(once[..i], line[..i], '\'');
    }
  }

  /** A line without single quotes is never touched, whatever the constant. */
  lemma {:induction false} NoQuoteUnchanged(line: Line, constant: seq<char>)
    requires '\'' !in line
    ensures ProcessLine(line, constant) == line
  {
    ScanPlain(line, constant);
  }

  // ---------------------------------------------------------------------------
  // The scanner, piece by piece (any constant)

  lemma {:induction false} ScanAppend(a: Line, b: Line, quoted: bool, constant: seq<char>)
    ensures Scan(a + b, quoted, constant) == Scan(a, quoted, constant) + Scan(b, quoted != UnevenQuotes(a), constant)
  {
    if a == [] {
      assert a + b == b;
    } else {
      var next := if a[0] == '\'' then !quoted else quoted;
      var head := if a[0] == '\'' then [a[0]] else if a[0] == '"' && quoted then constant else [a[0]];
      assert (a + b)[0] == a[0];
      assert (a + b)[1..] == a[1..] + b;
      var tailA, tailB := Scan(a[1..], next, constant), Scan(b, next != UnevenQuotes(a[1..]), constant);
      assert Scan(a + b, quoted, constant) == head + Scan(a[1..] + b, next, constant);
      ScanAppend(a[1..], b, next, constant);
      assert Scan(a, quoted, constant) == head + tailA;
      AppendAssoc(head, tailA, tailB);
      UnevenStep(a);
    }
  }

  /** The parity of the single quotes of `s` is that of its tail, flipped when `s` starts with one. */
  lemma UnevenStep(s: Line)
    requires s != []
    ensures UnevenQuotes(s) == (UnevenQuotes(s[1..]) != (s[0] == '\''))
  {
  }

  /** Text without single quotes read while SCANNING is emitted as it is. */
  lemma {:induction false} ScanPlain(s: Line, constant: seq<char>)
    requires '\'' !in s
    ensures Scan(s, false, constant) == s
  {
    if s != [] {
      ScanPlain(s[1..], constant);
    }
  }

  /** Text without single quotes read IN_SPAN has its double quotes replaced, as `str.replace` does. */
  lemma {:induction false} ScanSpanBody(s: Line, constant: seq<char>)
    requires '\'' !in s
    ensures Scan(s, true, constant) == ReplaceAll(s, ['"'], constant)
  {
    if s != [] {
      assert s[..1] == [s[0]];
      ScanSpanBody(s[1..], constant);
    }
  }

  /**
   * Locality for any constant: text without single quotes that follows an
   * even number of them (so lies between two spans) is emitted unchanged,
   * and what stands on either side of it is processed on its own.
   */
  lemma BetweenSpansUntouched(before: Line, between: Line, after: Line, constant: seq<char>)
    requires !UnevenQuotes(before + between + after)
    requires !UnevenQuotes(before)
    requires '\'' !in between
    ensures ProcessLine(before + between + after, constant)
         == ProcessLine(before, constant) + between + ProcessLine(after, constant)
  {
    AfterEven(before, between, after);
    AppendAssoc(before, between, after);
    ScanSplits(before, between + after, constant);
    ScanPassesPlain(between, after, constant);
    AppendAssoc(Scan(before, false, constant), between, Scan(after, false, constant));
  }

  /** After an even number of single quotes SCANNING resumes: the scan of `a + b` is that of `a` followed by that of `b`. */
  lemma ScanSplits(a: Line, b: Line, constant: seq<char>)
    requires !UnevenQuotes(a)
    ensures Scan(a + b, false, constant) == Scan(a, false, constant) + Scan(b, false, constant)
  {
    ScanAppend(a, b, false, constant);
  }

  /** With the line and `before` even, and no single quote in `between`, `after` is even too. */
  lemma AfterEven(before: Line, between: Line, after: Line)
    requires !UnevenQuotes(before + between + after)
    requires !UnevenQuotes(before)
    requires '\'' !in between
    ensures !UnevenQuotes(after)
  {
    CountAroundPlain(before, between, after);
  }

  lemma CountAroundPlain(before: Line, plain: Line, after: Line)
    requires '\'' !in plain
    ensures Count(before + plain + after, '\'') == Count(before, '\'') + Count(after, '\'')
  {
    CountZero(plain, '\'');
    CountAppend(before, plain, '\'');
    CountAppend(before + plain, after, '\'');
  }

  lemma ScanPassesPlain(plain: Line, rest: Line, constant: seq<char>)
    requires '\'' !in plain
    ensures Scan(plain + rest, false, constant) == plain + Scan(rest, false, constant)
  {
    CountZero(plain, '\'');
    ScanAppend(plain, rest, false, constant);
    ScanPlain(plain, constant);
  }

  /** One span on its own: the delimiters stay and each double quote between them becomes the constant. */
  lemma SpanRewrite(body: Line, constant: seq<char>)
    requires '\'' !in body
    ensures ProcessLine(['\''] + body + ['\''], constant) == ['\''] + ReplaceAll(body, ['"'], constant) + ['\'']
  {
    var line := ['\''] + body + ['\''];
    CountAppend(['\''] + body, ['\''], '\'');
    CountAppend(['\''], body, '\'');
    CountZero(body, '\'');
    assert line[1..] == body + ['\''];
    ScanAppend(body, ['\''], true, constant);
    ScanSpanBody(body, constant);
  }

  // ---------------------------------------------------------------------------
  // __replace

  /**
   * The `while` loop of `__replace` for one line whose single quotes are even
   * in number: `second` starts at -1; while a single quote is left after
   * `second`, `first` is the next one and `second` the one after it, and the
   * double quotes of `line[first:second]` become the constant. `spans`
   * records the pairs the loop visits.
   */
  method SubstituteInSpans(line: Line, constant: seq<char>) returns (result: Line, ghost spans: seq<Span>)
    requires |constant| == 1
    requires !UnevenQuotes(line)
    ensures result == Scan(line, false, constant)
    ensures |spans| == Count(line, '\'') / 2
    ensures forall k :: 0 <= k < |spans| ==> PairsQuotes(line, spans[k], k)
    ensures |result| == |line|
    ensures forall i :: 0 <= i < |line| ==>
      result[i] == (if line[i] == '"' && Covers(spans, i) then constant[0] else line[i])
  {
    var c := constant[0];
    assert constant == [c];
    var cur := line;
    var second := -1;
    spans := [];
    assert line[..0] == [];
    while '\'' in cur[second + 1..]
      invariant -1 <= second < |line|
      invariant Scanned(line, c, cur, second + 1, spans)
      decreases |line| - second
    {
      ghost var done := second + 1;
      var first := Find(cur, '\'', second + 1);
      second := Find(cur, '\'', first + 1);
      ScanOneSpan(line, c, cur, done, spans, first, second);
      cur := cur[..first] + ReplaceAll(cur[first..second], ['"'], constant) + cur[second..];
      spans := spans + [Span(first, second)];
    }
    result := cur;
    ScanDone(line, c, cur, second + 1, spans);
  }

  /**
   * What the loop knows once the positions before `done` are scanned: they
   * hold the substituted text and the rest is untouched (`Rewritten`); the
   * spans found so far are the first quote pairs of the line and cover
   * exactly the positions inside a span (`Paired`).
   */
  ghost predicate Scanned(line: Line, c: char, cur: Line, done: nat, spans: seq<Span>)
  {
    Paired(line, done, spans) && Rewritten(line, c, cur, done, spans)
  }

  ghost predicate Paired(line: Line, done: nat, spans: seq<Span>)
  {
    && done <= |line|
    && (forall i :: 0 <= i < done ==> (Covers(spans, i) <==> InSpan(line, i)))
    && Count(line[..done], '\'') == 2 * |spans|
    && (forall k :: 0 <= k < |spans| ==> PairsQuotes(line, spans[k], k) && spans[k].close < done)
  }

  ghost predicate Rewritten(line: Line, c: char, cur: Line, done: nat, spans: seq<Span>)
  {
    && done <= |line| && |cur| == |line|
    && (forall i :: done <= i < |line| ==> cur[i] == line[i])
    && (forall i :: 0 <= i < done ==> cur[i] == (if line[i] == '"' && Covers(spans, i) then c else line[i]))
  }

  /** One turn of the loop keeps `Scanned`, and the closing quote is always found. */
  lemma ScanOneSpan(line: Line, c: char, cur: Line, done: nat, spans: seq<Span>, first: int, second: int)
    requires !UnevenQuotes(line)
    requires Scanned(line, c, cur, done, spans)
    requires first == Find(cur, '\'', done) != -1
    requires second == Find(cur, '\'', first + 1)
    ensures done <= first < second < |line|
    ensures Scanned(line, c, cur[..first] + ReplaceAll(cur[first..second], ['"'], [c]) + cur[second..],
                    second + 1, spans + [Span(first, second)])
    ensures |spans| + 1 <= Count(line, '\'') / 2
  {
    SpanStep(line, done, first, second, |spans|);
    assert line == line[..second + 1] + line[second + 1..];
    CountAppend(line[..second + 1], line[second + 1..], '\'');
    PairedStep(line, done, spans, first, second);
    RewrittenStep(line, c, cur, done, spans, first, second);
  }

  lemma PairedStep(line: Line, done: nat, spans: seq<Span>, first: nat, second: nat)
    requires Paired(line, done, spans)
    requires done <= first < second < |line|
    requires PairsQuotes(line, Span(first, second), |spans|)
    requires Count(line[..second + 1], '\'') == 2 * |spans| + 2
    requires forall i :: done <= i <= second ==> (InSpan(line, i) <==> first < i < second)
    ensures Paired(line, second + 1, spans + [Span(first, second)])
  {
    var more := spans + [Span(first, second)];
    assert more[..|more| - 1] == spans;
    CoversAppend(more, done, first, second);
  }

  lemma RewrittenStep(line: Line, c: char, cur: Line, done: nat, spans: seq<Span>, first: nat, second: nat)
    requires Rewritten(line, c, cur, done, spans)
    requires done <= first < second < |line|
    requires line[first] == '\''
    requires forall k :: 0 <= k < |spans| ==> spans[k].close < done
    ensures Rewritten(line, c, cur[..first] + ReplaceAll(cur[first..second], ['"'], [c]) + cur[second..],
                      second + 1, spans + [Span(first, second)])
  {
    var next := cur[..first] + ReplaceAll(cur[first..second], ['"'], [c]) + cur[second..];
    var more := spans + [Span(first, second)];
    ReplaceCharAt(cur[first..second], '"', c);
    assert more[..|more| - 1] == spans;
    CoversAppend(more, done, first, second);
    forall i | 0 <= i <= second
      ensures next[i] == (if line[i] == '"' && Covers(more, i) then c else line[i])
    {
      if i < first {
        assert next[i] == cur[i];
      } else if i < second {
        assert next[i] == (if cur[i] == '"' then c else cur[i]);
      } else {
        assert next[i] == cur[i];
      }
    }
    assert forall i :: second < i < |next| ==> next[i] == cur[i];
  }

  /** When no single quote is left after `done`, the loop has produced the scanner's output. */
  lemma ScanDone(line: Line, c: char, cur: Line, done: nat, spans: seq<Span>)
    requires !UnevenQuotes(line)
    requires Scanned(line, c, cur, done, spans)
    requires forall j :: done <= j < |cur| ==> cur[j] != '\''
    ensures cur == Scan(line, false, [c])
    ensures |spans| == Count(line, '\'') / 2
    ensures forall i :: 0 <= i < |line| ==> cur[i] == (if line[i] == '"' && Covers(spans, i) then c else line[i])
  {
    RestOutside(line, done, spans);
    ScanAt(line, false, c);
    forall i | 0 <= i < |line|
      ensures cur[i] == Scan(line, false, [c])[i]
    {
      if i < done {
        assert Covers(spans, i) <==> InSpan(line, i);
      }
    }
  }

  /** Past the last span nothing is covered and the count of single quotes stays even. */
  lemma RestOutside(line: Line, done: nat, spans: seq<Span>)
    requires Paired(line, done, spans)
    requires forall j :: done <= j < |line| ==> line[j] != '\''
    ensures Count(line, '\'') == 2 * |spans|
    ensures forall i :: done <= i < |line| ==> !UnevenQuotes(line[..i]) && !Covers(spans, i)
  {
    CountFlat(line, '\'', done, |line|);
    assert line[..|line|] == line;
    PastSpans(spans, done);
    forall i | done <= i < |line|
      ensures !UnevenQuotes(line[..i])
    {
      EvenPairs(line[..i], |spans|);
    }
  }

  lemma EvenPairs(s: Line, k: nat)
    requires Count(s, '\'') == 2 * k
    ensures !UnevenQuotes(s)
  {
  }

  lemma OddPairs(s: Line, k: nat)
    requires Count(s, '\'') == 2 * k + 1
    ensures UnevenQuotes(s)
  {
  }

  lemma PastSpans(spans: seq<Span>, done: nat)
    requires forall k :: 0 <= k < |spans| ==> spans[k].close < done
    ensures forall i :: done <= i ==> !Covers(spans, i)
  {
  }



  /**
   * The arithmetic of one turn of the loop: a span opens at the first single
   * quote after `from`, and because the count is even a closing quote follows.
   */
  lemma SpanStep(line: Line, from: nat, first: int, second: int, k: nat)
    requires !UnevenQuotes(line)
    requires from <= |line| && Count(line[..from], '\'') == 2 * k
    requires from <= first < |line| && line[first] == '\''
    requires forall j :: from <= j < first ==> line[j] != '\''
    requires second == -1 || (first + 1 <= second < |line| && line[second] == '\'')
    requires second == -1 ==> forall j :: first + 1 <= j < |line| ==> line[j] != '\''
    requires second != -1 ==> forall j :: first + 1 <= j < second ==> line[j] != '\''
    ensures second != -1
    ensures forall i :: from <= i <= first ==> Count(line[..i], '\'') == 2 * k
    ensures forall i :: first < i <= second ==> Count(line[..i], '\'') == 2 * k + 1
    ensures Count(line[..second + 1], '\'') == 2 * k + 2
    ensures PairsQuotes(line, Span(first, second), k)
    ensures forall i :: from <= i <= second ==> (InSpan(line, i) <==> first < i < second)
  {
    CountFlat(line, '\'', from, first);
    assert line[..first + 1] == line[..first] + [line[first]];
    CountAppend(line[..first], [line[first]], '\'');
    assert '\'' in line[first + 1..] by {
      assert line == line[..first + 1] + line[first + 1..];
      CountAppend(line[..first + 1], line[first + 1..], '\'');
      CountZero(line[first + 1..], '\'');
    }
    CountFlat(line, '\'', first + 1, second);
    assert line[..second + 1] == line[..second] + [line[second]];
    CountAppend(line[..second], [line[second]], '\'');
    InSpanBetween(line, from, first, second, k);
  }

  /** Inside a span exactly the positions strictly between its two quotes have an odd count before them. */
  lemma InSpanBetween(line: Line, from: nat, first: nat, second: nat, k: nat)
    requires from <= first < second < |line|
    requires line[first] == '\'' && line[second] == '\''
    requires forall i :: from <= i <= first ==> Count(line[..i], '\'') == 2 * k
    requires forall i :: first < i <= second ==> Count(line[..i], '\'') == 2 * k + 1
    requires forall j :: first < j < second ==> line[j] != '\''
    ensures forall i :: from <= i <= second ==> (InSpan(line, i) <==> first < i < second)
  {
    forall i | from <= i <= second
      ensures InSpan(line, i) <==> first < i < second
    {
      if i <= first {
        EvenPairs(line[..i], k);
      } else {
        OddPairs(line[..i], k);
      }
    }
  }

  lemma CoversAppend(spans: seq<Span>, from: nat, first: nat, second: nat)
    requires |spans| > 0 && spans[|spans| - 1] == Span(first, second)
    requires from <= first
    requires forall k :: 0 <= k < |spans| - 1 ==> spans[k].close < from
    ensures forall i :: 0 <= i < from ==> (Covers(spans, i) <==> Covers(spans[..|spans| - 1], i))
    ensures forall i :: from <= i <= second ==> (Covers(spans, i) <==> first < i < second)
  {
    var old_ := spans[..|spans| - 1];
    forall i | 0 <= i < from
      ensures Covers(spans, i) <==> Covers(old_, i)
    {
      if Covers(spans, i) {
        var k :| 0 <= k < |spans| && spans[k].open < i < spans[k].close;
        assert k < |spans| - 1;
        assert old_[k] == spans[k];
      }
      if Covers(old_, i) {
        var k :| 0 <= k < |old_| && old_[k].open < i < old_[k].close;
        assert spans[k] == old_[k];
      }
    }
    forall i | from <= i <= second
      ensures Covers(spans, i) <==> first < i < second
    {
      if first < i < second {
        assert spans[|spans| - 1].open < i < spans[|spans| - 1].close;
      }
    }
  }

  /**
   * `__replace` over the lines of a file. Each line is handled on its own:
   * one with an uneven number of single quotes is kept as it is and its
   * index goes into `skipped` (where the source prints a warning); any other
   * goes through the loop above.
   */
  method Replace(data: seq<Line>, constant: seq<char>) returns (processed: seq<Line>, skipped: seq<nat>)
    requires |constant| == 1
    ensures |processed| == |data|
    ensures forall n :: 0 <= n < |data| ==> processed[n] == ProcessLine(data[n], constant)
    ensures forall n: nat :: n in skipped <==> n < |data| && UnevenQuotes(data[n])
    ensures forall j, j' :: 0 <= j < j' < |skipped| ==> skipped[j] < skipped[j']
  {
    processed := [];
    skipped := [];
    for n := 0 to |data|
      invariant |processed| == n
      invariant forall m :: 0 <= m < n ==> processed[m] == ProcessLine(data[m], constant)
      invariant SkippedBefore(data, skipped, n)
    {
      var line := data[n];
      if Count(line, '\'') % 2 != 0 {
        SkipOne(data, skipped, n);
        skipped := skipped + [n];
        processed := processed + [line];
        continue;
      }
      KeepOne(data, skipped, n);
      var out, spans := SubstituteInSpans(line, constant);
      processed := processed + [out];
    }
  }

  /** `skipped` lists, in increasing order, exactly the lines before `n` with an uneven number of single quotes. */
  ghost predicate SkippedBefore(data: seq<Line>, skipped: seq<nat>, n: nat)
  {
    && n <= |data|
    && (forall m: nat :: m in skipped <==> m < n && UnevenQuotes(data[m]))
    && (forall j, j' :: 0 <= j < j' < |skipped| ==> skipped[j] < skipped[j'])
    && (forall j :: 0 <= j < |skipped| ==> skipped[j] < n)
  }

  lemma SkipOne(data: seq<Line>, skipped: seq<nat>, n: nat)
    requires SkippedBefore(data, skipped, n) && n < |data|
    requires UnevenQuotes(data[n])
    ensures SkippedBefore(data, skipped + [n], n + 1)
  {
  }

  lemma KeepOne(data: seq<Line>, skipped: seq<nat>, n: nat)
    requires SkippedBefore(data, skipped, n) && n < |data|
    requires !UnevenQuotes(data[n])
    ensures SkippedBefore(data, skipped, n + 1)
  {
  }

  function Restore(line: Line, constant: seq<char>): Line
  {
    if constant == [] then line else ReplaceAll(line, constant, ['"'])
  }

  function Unprocess(data: seq<Line>, constant: seq<char>): seq<Line>
  {
    seq(|data|, n requires 0 <= n < |data| => Restore(data[n], constant))
  }

  /** Round trip: when the one-character constant does not occur in a line, restoring undoes the substitution, skipped lines included. */
  lemma RoundTrip(line: Line, c: char)
    requires c !in line
    ensures Restore(ProcessLine(line, [c]), [c]) == line
  {
    ProcessLineAt(line, c);
    ReplaceCharAt(ProcessLine(line, [c]), c, '"');
  }

  /** The same for a whole file, taking the lines `Replace` produced. */
  lemma RoundTripFile(data: seq<Line>, processed: seq<Line>, c: char)
    requires forall n :: 0 <= n < |data| ==> c !in data[n]
    requires |processed| == |data|
    requires forall n :: 0 <= n < |data| ==> processed[n] == ProcessLine(data[n], [c])
    ensures Unprocess(processed, [c]) == data
  {
    forall n | 0 <= n < |data|
      ensures Restore(processed[n], [c]) == data[n]
    {
      RoundTrip(data[n], c);
    }
  }

  /** A line in which the constant no longer occurs is left alone by a further restore. */
  lemma {:induction false} RestoreWithoutConstant(line: Line, constant: seq<char>)
    requires !Occurs(line, constant)
    ensures Restore(line, constant) == line
  {
    if constant != [] {
      ReplaceAllAbsent(line, constant, ['"']);
    }
  }

  /** With a one-character constant other than a double quote, restoring leaves no constant behind, so restoring twice is restoring once. */
  lemma RestoreIdempotent(line: Line, c: char)
    requires c != '"'
    ensures c !in Restore(line, [c])
    ensures Restore(Restore(line, [c]), [c]) == Restore(line, [c])
  {
    var once := Restore(line, [c]);
    ReplaceCharAt(line, c, '"');
    ReplaceCharAt(once, c, '"');
  }
}
