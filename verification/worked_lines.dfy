/**
 * Lines worked through by hand: one with two spans and a double quote
 * between them, one whose apostrophe makes the count of single quotes
 * uneven, and two on which a two-character constant defeats the round trip
 * or idempotence.
 * Longer lines are written as concatenations of short pieces.
 */
module WorkedLines {
  import opened PyStr
  import FileProcessor
  import GeneralLoop

  /**
   * `a'b"c'd"e'f"g'h` with the constant `Q` gives `a'bQc'd"e'fQg'h`: the
   * double quotes of the two spans become `Q`, the one in `d"e` between the
   * spans stays.
   */
  lemma TwoSpansWithQ()
    ensures FileProcessor.ProcessLine("a'b\"c'" + "d\"e" + "'f\"g'h", "Q") == "a'bQc'" + "d\"e" + "'fQg'h"
  {
    var before, between, after := "a'b\"c'", "d\"e", "'f\"g'h";
    assert Count(before, '\'') == 2;
    assert Count(after, '\'') == 2;
    FileProcessor.CountAroundPlain(before, between, after);
    FileProcessor.BetweenSpansUntouched(before, between, after, "Q");
    LeadingSpanWithQ();
    TrailingSpanWithQ();
  }

  /** `a'b"c'` on its own: plain text, then one span. */
  lemma LeadingSpanWithQ()
    ensures FileProcessor.ProcessLine("a'b\"c'", "Q") == "a'bQc'"
  {
    var span := "'b\"c'";
    assert "a'b\"c'" == "a" + span;
    assert Count(span, '\'') == 2;
    assert Count("a" + span, '\'') == 2 by {
      CountAppend("a", span, '\'');
    }
    FileProcessor.ScanPassesPlain("a", span, "Q");
    assert span == ['\''] + "b\"c" + ['\''];
    FileProcessor.SpanRewrite("b\"c", "Q");
    assert ReplaceAll("b\"c", ['"'], "Q") == "bQc" by {
      ReplaceCharAt("b\"c", '"', 'Q');
    }
    assert FileProcessor.Scan(span, false, "Q") == "'bQc'";
  }

  /** `'f"g'h` on its own: one span, then plain text. */
  lemma TrailingSpanWithQ()
    ensures FileProcessor.ProcessLine("'f\"g'h", "Q") == "'fQg'h"
  {
    var span := "'f\"g'";
    assert "'f\"g'h" == span + "h";
    assert Count(span, '\'') == 2;
    FileProcessor.ScanSplits(span, "h", "Q");
    FileProcessor.ScanPlain("h", "Q");
    assert span == ['\''] + "f\"g" + ['\''];
    FileProcessor.SpanRewrite("f\"g", "Q");
    assert ReplaceAll("f\"g", ['"'], "Q") == "fQg" by {
      ReplaceCharAt("f\"g", '"', 'Q');
    }
    assert FileProcessor.Scan(span, false, "Q") == "'fQg'";
  }

  /**
   * `echo 'say "hi" now' and "don't touch"` holds three single quotes, the
   * apostrophe of `don't` being the third, so the loop never runs and the
   * line comes out as it went in, whatever the constant.
   */
  lemma ApostropheLeavesLineAlone(line: seq<char>, constant: seq<char>, fuel: nat)
    requires line == "echo " + "'" + "say \"hi\" now" + "'" + " and \"don" + "'" + "t touch\""
    ensures GeneralLoop.AsWrittenLine(line, constant, fuel) == GeneralLoop.Some(line)
  {
    ThreeQuotesKept(line, "echo ", "say \"hi\" now", " and \"don", "t touch\"", constant, fuel);
  }

  /** A line split by exactly three single quotes is passed through unchanged. */
  lemma ThreeQuotesKept(line: seq<char>, a: seq<char>, b: seq<char>, c: seq<char>, d: seq<char>,
                        constant: seq<char>, fuel: nat)
    requires line == a + "'" + b + "'" + c + "'" + d
    requires '\'' !in a && '\'' !in b && '\'' !in c && '\'' !in d
    ensures GeneralLoop.AsWrittenLine(line, constant, fuel) == GeneralLoop.Some(line)
  {
    CountZero(a, '\'');
    QuoteThenPlain(a, b);
    QuoteThenPlain(a + "'" + b, c);
    QuoteThenPlain(a + "'" + b + "'" + c, d);
  }

  lemma QuoteThenPlain(x: seq<char>, y: seq<char>)
    requires '\'' !in y
    ensures Count(x + "'" + y, '\'') == Count(x, '\'') + 1
  {
    CountZero(y, '\'');
    CountAppend(x, "'", '\'');
    CountAppend(x + "'", y, '\'');
  }

  /**
   * The round trip needs more than the constant being absent from the line
   * when the constant is longer than one character: `'x"'` holds no `xx`,
   * yet with the constant `xx` it becomes `'xxx'`, both in the scanner and
   * in the loop as written, and `sed` replaces the first `xx` of that and
   * gives back `'"x'`.
   */
  lemma OverlappingConstantBreaksRoundTrip()
    ensures forall i: nat :: !OccursAt("'x\"'", "xx", i)
    ensures FileProcessor.ProcessLine("'x\"'", "xx") == "'xxx'"
    ensures GeneralLoop.AsWrittenLine("'x\"'", "xx", 3) == GeneralLoop.Some("'xxx'")
    ensures FileProcessor.Restore("'xxx'", "xx") == "'\"x'"
  {
    OverlapScanned();
    OverlapAsWritten();
  }

  lemma OverlapScanned()
    ensures forall i: nat :: !OccursAt("'x\"'", "xx", i)
    ensures FileProcessor.ProcessLine("'x\"'", "xx") == "'xxx'"
    ensures FileProcessor.Restore("'xxx'", "xx") == "'\"x'"
  {
    assert "'x\"'" == ['\''] + "x\"" + ['\''];
    FileProcessor.SpanRewrite("x\"", "xx");
    assert ReplaceAll("x\"", ['"'], "xx") == "xxx";
    assert ReplaceAll("'xxx'", "xx", ['"']) == "'\"x'";
  }

  /** The loop as written takes three passes over `'x"'` and ends with `'xxx'`. */
  lemma OverlapAsWritten()
    ensures GeneralLoop.AsWrittenLine("'x\"'", "xx", 3) == GeneralLoop.Some("'xxx'")
  {
    assert Count("'x\"'", '\'') == 2;
    OverlapRun();
  }

  lemma OverlapRun()
    ensures GeneralLoop.Run(GeneralLoop.LoopState("'x\"'", -1), "xx", 3) == GeneralLoop.Some("'xxx'")
  {
    OverlapFirstPass();
    OverlapSecondPass();
    OverlapThirdPass();
    assert GeneralLoop.Slice("'xxx'", 5, 5) == [];
    GeneralLoop.RunSteps(GeneralLoop.LoopState("'x\"'", -1), "xx", 3);
    GeneralLoop.RunSteps(GeneralLoop.LoopState("'xxx'", 3), "xx", 2);
    GeneralLoop.RunSteps(GeneralLoop.LoopState("'xxx'", -1), "xx", 1);
  }

  /** The first pass rewrites the whole span `'x"` to `'xxx`. */
  lemma OverlapFirstPass()
    ensures GeneralLoop.Continues(GeneralLoop.LoopState("'x\"'", -1))
    ensures GeneralLoop.Step(GeneralLoop.LoopState("'x\"'", -1), "xx") == GeneralLoop.LoopState("'xxx'", 3)
  {
    var st := GeneralLoop.LoopState("'x\"'", -1);
    OverlapFirstFinds();
    GeneralLoop.QuoteResumes(st);
    GeneralLoop.StepInRange(st, "xx", 0, 3);
    OverlapSpanTexts();
  }

  lemma OverlapFirstFinds()
    ensures Find("'x\"'", '\'', 0) == 0
    ensures Find("'x\"'", '\'', 1) == 3
    ensures "'x\"'"[0..3] == "'x\""
  {
  }

  /**
   * The stale `second` now points into the rewritten span; the only quote
   * after it is the last one, the search for its partner gives -1, and the
   * slices with the negative bound rebuild the same line.
   */
  lemma OverlapSecondPass()
    ensures GeneralLoop.Continues(GeneralLoop.LoopState("'xxx'", 3))
    ensures GeneralLoop.Step(GeneralLoop.LoopState("'xxx'", 3), "xx") == GeneralLoop.LoopState("'xxx'", -1)
  {
    var st := GeneralLoop.LoopState("'xxx'", 3);
    assert Find(st.line, '\'', 4) == 4;
    assert Find(st.line, '\'', 5) == -1;
    GeneralLoop.QuoteResumes(st);
    assert GeneralLoop.Slice(st.line, 0, 4) == "'xxx";
    assert GeneralLoop.Slice(st.line, 4, -1) == [];
    assert GeneralLoop.Slice(st.line, -1, 5) == "'";
    assert ReplaceAll([], ['"'], "xx") == [];
  }

  /** With `second` back at -1 the loop pairs the two quotes again; there is no double quote left. */
  lemma OverlapThirdPass()
    ensures GeneralLoop.Continues(GeneralLoop.LoopState("'xxx'", -1))
    ensures GeneralLoop.Step(GeneralLoop.LoopState("'xxx'", -1), "xx") == GeneralLoop.LoopState("'xxx'", 4)
  {
    var st := GeneralLoop.LoopState("'xxx'", -1);
    assert Find(st.line, '\'', 0) == 0;
    assert Find(st.line, '\'', 1) == 4;
    GeneralLoop.QuoteResumes(st);
    GeneralLoop.StepInRange(st, "xx", 0, 4);
    assert st.line[0..4] == "'xxx";
    OverlapSpanTexts();
  }

  /** The double quote of `'x"` becomes `xx`; `'xxx` has none to replace. */
  lemma OverlapSpanTexts()
    ensures ReplaceAll("'x\"", ['"'], "xx") == "'xxx"
    ensures ReplaceAll("'xxx", ['"'], "xx") == "'xxx"
  {
    assert ReplaceAll("\"", ['"'], "xx") == "xx";
    assert ReplaceAll("x\"", ['"'], "xx") == "x" + ReplaceAll("\"", ['"'], "xx");
    assert ReplaceAll("'x\"", ['"'], "xx") == "'" + ReplaceAll("x\"", ['"'], "xx");
    assert ReplaceAll("x", ['"'], "xx") == "x";
    assert ReplaceAll("xx", ['"'], "xx") == "x" + ReplaceAll("x", ['"'], "xx");
    assert ReplaceAll("xxx", ['"'], "xx") == "x" + ReplaceAll("xx", ['"'], "xx");
    assert ReplaceAll("'xxx", ['"'], "xx") == "'" + ReplaceAll("xxx", ['"'], "xx");
  }

  /**
   * Processing is not idempotent for a longer constant that holds a double
   * quote: with `x"`, `'"'` becomes `'x"'`, and processing that again
   * replaces the new double quote once more.
   */
  lemma ProcessingTwiceWithLongerConstant()
    ensures FileProcessor.ProcessLine("'\"'", "x\"") == "'x\"'"
    ensures FileProcessor.ProcessLine("'x\"'", "x\"") == "'xx\"'"
  {
    assert "'\"'" == ['\''] + "\"" + ['\''];
    FileProcessor.SpanRewrite("\"", "x\"");
    assert ReplaceAll("\"", ['"'], "x\"") == "x\"";
    assert "'x\"'" == ['\''] + "x\"" + ['\''];
    FileProcessor.SpanRewrite("x\"", "x\"");
    assert ReplaceAll("x\"", ['"'], "x\"") == "x" + ReplaceAll("\"", ['"'], "x\"");
  }
}
