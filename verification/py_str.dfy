/**
 * The few string primitives the quote substitution is built from: Python's
 * `str.count`, `str.find` and `str.replace`, and the literal effect of the
 * `sed s/.../.../g` command that undoes the substitution.
 */
module PyStr {

  /** Number of occurrences of `ch` in `s` (`s.count(ch)` for a one-character argument). */
  function Count(s: seq<char>, ch: char): (n: nat)
    ensures n <= |s|
  {
    if s == [] then 0
    else (if s[0] == ch then 1 else 0) + Count(s[1..], ch)
  }

  lemma {:induction false} CountZero(s: seq<char>, ch: char)
    ensures Count(s, ch) == 0 <==> ch !in s
  {
    if s != [] {
      assert s == [s[0]] + s[1..];
      CountZero(s[1..], ch);
    }
  }

  lemma {:induction false} CountAppend(a: seq<char>, b: seq<char>, ch: char)
    ensures Count(a + b, ch) == Count(a, ch) + Count(b, ch)
  {
    if a == [] {
      assert a + b == b;
    } else {
      assert (a + b)[1..] == a[1..] + b;
      CountAppend(a[1..], b, ch);
    }
  }

  /** Prefix counts do not move across a stretch `s[a..b]` that holds no `ch`. */
  lemma CountFlat(s: seq<char>, ch: char, a: nat, b: nat)
    requires a <= b <= |s|
    requires forall j :: a <= j < b ==> s[j] != ch
    ensures forall i :: a <= i <= b ==> Count(s[..i], ch) == Count(s[..a], ch)
  {
    forall i | a <= i <= b
      ensures Count(s[..i], ch) == Count(s[..a], ch)
    {
      assert s[..i] == s[..a] + s[a..i];
      CountAppend(s[..a], s[a..i], ch);
      CountZero(s[a..i], ch);
    }
  }

  /** Two strings with `ch` at exactly the same positions hold it equally often. */
  lemma {:induction false} CountAgrees(a: seq<char>, b: seq<char>, ch: char)
    requires |a| == |b|
    requires forall i :: 0 <= i < |a| ==> (a[i] == ch <==> b[i] == ch)
    ensures Count(a, ch) == Count(b, ch)
  {
    if a != [] {
      CountAgrees(a[1..], b[1..], ch);
    }
  }

  lemma AppendAssoc(x: seq<char>, y: seq<char>, z: seq<char>)
    ensures x + (y + z) == (x + y) + z
  {
  }

  /**
   * `s.find(ch, start)`: the first index at or after `start` that holds `ch`,
   * or -1 when there is none (also when `start` lies beyond the end).
   */
  function Find(s: seq<char>, ch: char, start: nat): (r: int)
    ensures r == -1 || (start <= r < |s| && s[r] == ch)
    ensures r == -1 ==> forall j :: start <= j < |s| ==> s[j] != ch
    ensures r != -1 ==> forall j :: start <= j < r ==> s[j] != ch
    decreases |s| - start
  {
    if start >= |s| then -1
    else if s[start] == ch then start
    else Find(s, ch, start + 1)
  }

  /**
   * Every occurrence of `pat` in `s`, scanned left to right without overlap,
   * replaced by `rep`. This is `s.replace(pat, rep)` for a non-empty `pat`,
   * and also what `sed "s/pat/rep/g"` does to a line when `pat` holds no
   * regular-expression metacharacter.
   */
  function ReplaceAll(s: seq<char>, pat: seq<char>, rep: seq<char>): seq<char>
    requires pat != []
    decreases |s|
  {
    if |s| < |pat| then s
    else if s[..|pat|] == pat then rep + ReplaceAll(s[|pat|..], pat, rep)
    else [s[0]] + ReplaceAll(s[1..], pat, rep)
  }

  predicate OccursAt(s: seq<char>, pat: seq<char>, i: nat)
  {
    i + |pat| <= |s| && s[i..i + |pat|] == pat
  }

  ghost predicate Occurs(s: seq<char>, pat: seq<char>)
  {
    exists i: nat :: OccursAt(s, pat, i)
  }

  /** Replacing a pattern that does not occur changes nothing. */
  lemma {:induction false} ReplaceAllAbsent(s: seq<char>, pat: seq<char>, rep: seq<char>)
    requires pat != []
    ensures !Occurs(s, pat) ==> ReplaceAll(s, pat, rep) == s
  {
    if |s| >= |pat| {
      if s[..|pat|] == pat {
        assert OccursAt(s, pat, 0);
      } else {
        ReplaceAllAbsent(s[1..], pat, rep);
        if Occurs(s[1..], pat) {
          var i: nat :| OccursAt(s[1..], pat, i);
          assert s[1..][i..i + |pat|] == s[i + 1..i + 1 + |pat|];
          assert OccursAt(s, pat, i + 1);
        }
      }
    }
  }

  /** One character for one character: the length is kept and each position is mapped on its own. */
  lemma {:induction false} ReplaceCharAt(s: seq<char>, p: char, c: char)
    ensures |ReplaceAll(s, [p], [c])| == |s|
    ensures forall i :: 0 <= i < |s| ==> ReplaceAll(s, [p], [c])[i] == (if s[i] == p then c else s[i])
  {
    if s != [] {
      assert s[..1] == [s[0]];
      ReplaceCharAt(s[1..], p, c);
    }
  }
}
