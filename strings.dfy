/**
 * String helpers shared by the two rewriting passes: substring search,
 * left-to-right replacement (Python's str.replace) and the line split/join
 * the host pipeline performs around each pass.
 */
module Strings {

  datatype Option<+T> = None | Some(value: T)

  /** `pat` occurs in `s` starting at index `i`. */
  predicate OccursAt(s: string, pat: string, i: nat)
  {
    i + |pat| <= |s| && forall m :: 0 <= m < |pat| ==> s[i + m] == pat[m]
  }

  predicate StartsWith(s: string, prefix: string)
  {
    |prefix| <= |s| && s[..|prefix|] == prefix
  }

  predicate EndsWith(s: string, suffix: string)
  {
    |suffix| <= |s| && s[|s| - |suffix|..] == suffix
  }

  /** Index of the first occurrence of `pat` in `s` at or after `from` (str.find). */
  function FindFrom(s: string, pat: string, from: nat): (r: Option<nat>)
    ensures r.Some? ==> from <= r.value && r.value + |pat| <= |s|
    decreases |s| - from
  {
    if from + |pat| > |s| then None
    else if OccursAt(s, pat, from) then Some(from)
    else FindFrom(s, pat, from + 1)
  }

  /** The search returns an occurrence with none before it, and fails only when there is none at all. */
  lemma {:induction false} FindFromSpec(s: string, pat: string, from: nat)
    ensures var r := FindFrom(s, pat, from);
            && (r.Some? ==> FirstOccurrence(s, pat, from, r.value))
            && (r.None? ==> forall k: nat :: from <= k ==> !OccursAt(s, pat, k))
    decreases |s| - from
  {
    if from + |pat| <= |s| && !OccursAt(s, pat, from) {
      FindFromSpec(s, pat, from + 1);
    }
  }

  /** `i` is the first index at or after `from` where `pat` occurs in `s`. */
  predicate FirstOccurrence(s: string, pat: string, from: nat, i: nat)
  {
    from <= i && OccursAt(s, pat, i) && forall k: nat :: from <= k < i ==> !OccursAt(s, pat, k)
  }

  /** The search finds exactly the first occurrence. */
  lemma {:induction false} FindFromFirst(s: string, pat: string, from: nat, i: nat)
    requires FirstOccurrence(s, pat, from, i)
    ensures FindFrom(s, pat, from) == Some(i)
    decreases i - from
  {
    if from < i {
      assert !OccursAt(s, pat, from);
      FindFromFirst(s, pat, from + 1, i);
    }
  }

  /** Index of the last occurrence of `pat` in `s` that starts before `k` (str.rfind on s[..k + |pat| - 1]). */
  function FindLastBelow(s: string, pat: string, k: nat): (r: Option<nat>)
    ensures r.Some? ==> r.value < k
    decreases k
  {
    if k == 0 then None
    else if OccursAt(s, pat, k - 1) then Some(k - 1)
    else FindLastBelow(s, pat, k - 1)
  }

  /** `j` is the last index below `k` where `pat` occurs in `s`. */
  predicate LastOccurrence(s: string, pat: string, k: nat, j: nat)
  {
    j < k && OccursAt(s, pat, j) && forall m: nat :: j < m < k ==> !OccursAt(s, pat, m)
  }

  /** The backward search returns the last occurrence, and fails only when there is none. */
  lemma {:induction false} FindLastBelowSpec(s: string, pat: string, k: nat)
    ensures var r := FindLastBelow(s, pat, k);
            && (r.Some? ==> LastOccurrence(s, pat, k, r.value))
            && (r.None? ==> forall m: nat :: m < k ==> !OccursAt(s, pat, m))
    decreases k
  {
    if k > 0 && !OccursAt(s, pat, k - 1) {
      FindLastBelowSpec(s, pat, k - 1);
    }
  }

  /** The backward search finds exactly the last occurrence. */
  lemma {:induction false} FindLastBelowOf(s: string, pat: string, k: nat, j: nat)
    requires LastOccurrence(s, pat, k, j)
    ensures FindLastBelow(s, pat, k) == Some(j)
    decreases k
  {
    if j < k - 1 {
      FindLastBelowOf(s, pat, k - 1, j);
    }
  }

  /** An occurrence fixes the first and the last character it covers. */
  lemma {:induction false} OccursAtEnds(s: string, pat: string, k: nat)
    requires |pat| > 0 && OccursAt(s, pat, k)
    ensures s[k] == pat[0] && s[k + |pat| - 1] == pat[|pat| - 1]
  {
    assert s[k + 0] == pat[0];
    assert s[k + (|pat| - 1)] == pat[|pat| - 1];
  }

  /** A one-character pattern occurs exactly where that character stands. */
  lemma {:induction false} OccursAtChar(s: string, c: char, k: nat)
    ensures OccursAt(s, [c], k) <==> k < |s| && s[k] == c
  {
    if k < |s| && s[k] == c {
      assert forall m :: 0 <= m < 1 ==> s[k + m] == [c][m];
    }
    if OccursAt(s, [c], k) {
      assert s[k + 0] == [c][0];
    }
  }

  lemma {:induction false} OccursBetween(a: string, pat: string, b: string)
    ensures OccursAt(a + pat + b, pat, |a|)
  {
    var t := a + pat + b;
    forall m | 0 <= m < |pat| ensures t[|a| + m] == pat[m] {
      assert t == a + (pat + b);
      assert (pat + b)[m] == pat[m];
    }
  }

  /** The pieces of a five-part concatenation are recovered by slicing at the part boundaries. */
  lemma {:induction false} FivePartSlices(a: string, b: string, c: string, d: string, e: string)
    ensures var t := a + b + c + d + e;
            && t[..|a|] == a
            && t[|a| + |b|..|a| + |b| + |c|] == c
            && t[|a| + |b| + |c| + |d|..] == e
  {
    var t := a + b + c + d + e;
    assert t == a + (b + c + d + e);
    assert t == (a + b) + c + (d + e);
    assert t == (a + b + c + d) + e;
  }

  /**
   * Python's `s.replace(pat, rep)`: occurrences of `pat` are taken left to
   * right without overlapping, and each is replaced by `rep`.
   */
  function ReplaceAll(s: string, pat: string, rep: string): string
    requires |pat| > 0
    decreases |s|
  {
    if s == [] then []
    else if OccursAt(s, pat, 0) then rep + ReplaceAll(s[|pat|..], pat, rep)
    else [s[0]] + ReplaceAll(s[1..], pat, rep)
  }

  /** Replacing a single character by a single character works position by position. */
  lemma {:induction false} ReplaceCharPointwise(s: string, c: char, d: char)
    ensures |ReplaceAll(s, [c], [d])| == |s|
    ensures forall k :: 0 <= k < |s| ==>
              ReplaceAll(s, [c], [d])[k] == if s[k] == c then d else s[k]
    decreases |s|
  {
    if s != [] {
      ReplaceCharPointwise(s[1..], c, d);
      OccursAtChar(s, c, 0);
      var r := ReplaceAll(s, [c], [d]);
      assert r == [if s[0] == c then d else s[0]] + ReplaceAll(s[1..], [c], [d]);
      forall k | 0 <= k < |s|
        ensures r[k] == if s[k] == c then d else s[k]
      {
        if k > 0 { assert s[1..][k - 1] == s[k]; }
      }
    }
  }

  /** A string without any occurrence of `pat` is left as it is. */
  lemma {:induction false} ReplaceAbsent(s: string, pat: string, rep: string)
    requires |pat| > 0
    ensures (forall k: nat :: !OccursAt(s, pat, k)) ==> ReplaceAll(s, pat, rep) == s
    decreases |s|
  {
    if s != [] && forall k: nat :: !OccursAt(s, pat, k) {
      assert !OccursAt(s, pat, 0);
      forall k: nat ensures !OccursAt(s[1..], pat, k) {
        assert !OccursAt(s, pat, k + 1);
      }
      ReplaceAbsent(s[1..], pat, rep);
    }
  }

  /** No two adjacent newline characters. */
  predicate NoBlankLine(s: string)
  {
    forall k :: 0 <= k < |s| - 1 ==> !(s[k] == '\n' && s[k + 1] == '\n')
  }

  /**
   * Replacing every "\n\n" (left to right) by a text without newlines leaves
   * no two newlines side by side: every newline that survives was followed
   * by something other than a newline.
   */
  lemma {:induction false} ReplaceBlankLines(s: string, rep: string)
    requires |rep| > 0 && '\n' !in rep
    ensures NoBlankLine(ReplaceAll(s, "\n\n", rep))
    ensures |s| > 0 && s[0] != '\n' ==> ReplaceAll(s, "\n\n", rep)[0] == s[0]
    ensures |s| > 0 && s[0] == '\n' ==> |ReplaceAll(s, "\n\n", rep)| > 0
    decreases |s|
  {
    var r := ReplaceAll(s, "\n\n", rep);
    if s == [] {
    } else if OccursAt(s, "\n\n", 0) {
      OccursAtEnds(s, "\n\n", 0);
      var t := ReplaceAll(s[2..], "\n\n", rep);
      ReplaceBlankLines(s[2..], rep);
      assert r == rep + t;
      forall k | 0 <= k < |r| - 1 ensures !(r[k] == '\n' && r[k + 1] == '\n') {
        if k < |rep| - 1 {
          assert r[k] == rep[k];
        } else if k == |rep| - 1 {
          assert r[k] == rep[k];
        } else {
          assert r[k] == t[k - |rep|] && r[k + 1] == t[k + 1 - |rep|];
        }
      }
    } else {
      var t := ReplaceAll(s[1..], "\n\n", rep);
      ReplaceBlankLines(s[1..], rep);
      assert r == [s[0]] + t;
      forall k | 0 <= k < |r| - 1 ensures !(r[k] == '\n' && r[k + 1] == '\n') {
        if k == 0 {
          if s[0] == '\n' {
            assert |s| > 1 ==> s[1] != '\n';
            assert |s| > 1 && s[1..][0] == s[1];
          }
        } else {
          assert r[k] == t[k - 1] && r[k + 1] == t[k];
        }
      }
    }
  }

  /** `s` split at every '\n' (Python's `s.split('\n')`): never empty. */
  function SplitOn(s: string): (r: seq<string>)
    ensures |r| > 0
    ensures forall k :: 0 <= k < |r| ==> '\n' !in r[k]
    decreases |s|
  {
    FindFromSpec(s, "\n", 0);
    match FindFrom(s, "\n", 0)
    case None =>
      assert forall k :: 0 <= k < |s| ==> s[k] != '\n' by {
        forall k | 0 <= k < |s| ensures s[k] != '\n' {
          OccursAtChar(s, '\n', k);
        }
      }
      [s]
    case Some(i) =>
      assert forall k :: 0 <= k < i ==> s[k] != '\n' by {
        forall k | 0 <= k < i ensures s[k] != '\n' {
          OccursAtChar(s, '\n', k);
        }
      }
      [s[..i]] + SplitOn(s[i + 1..])
  }

  /** The lines joined with '\n' between them (`'\n'.join(lines)`). */
  function JoinLines(lines: seq<string>): string
  {
    if lines == [] then []
    else if |lines| == 1 then lines[0]
    else lines[0] + "\n" + JoinLines(lines[1..])
  }

  /**
   * Python's `s.splitlines(False)` for texts whose only line boundary is
   * '\n': the pieces between newlines, without the empty piece after a
   * final newline (so "" gives no line at all).
   */
  function SplitLines(s: string): (r: seq<string>)
    ensures forall k :: 0 <= k < |r| ==> '\n' !in r[k]
  {
    var pieces := SplitOn(s);
    if pieces[|pieces| - 1] == "" then pieces[..|pieces| - 1] else pieces
  }

  /** Lines as the host hands them over: no line holds a newline and the last one is not empty. */
  predicate CleanLines(lines: seq<string>)
  {
    (forall k :: 0 <= k < |lines| ==> '\n' !in lines[k]) && (lines == [] || lines[|lines| - 1] != "")
  }

  /** A line without '\n' holds no newline occurrence. */
  lemma {:induction false} NoNewlineIn(line: string)
    requires '\n' !in line
    ensures FindFrom(line, "\n", 0).None?
  {
    FindFromSpec(line, "\n", 0);
    if FindFrom(line, "\n", 0).Some? {
      OccursAtChar(line, '\n', FindFrom(line, "\n", 0).value);
    }
  }

  /** The first newline of `line + "\n" + rest` is the one after `line`. */
  lemma {:induction false} NewlineAfter(line: string, rest: string)
    requires '\n' !in line
    ensures FindFrom(line + "\n" + rest, "\n", 0) == Some(|line|)
  {
    var s := line + "\n" + rest;
    forall k: nat | k < |line| ensures !OccursAt(s, "\n", k) {
      assert s[k] == line[k];
      OccursAtChar(s, '\n', k);
    }
    OccursAtChar(s, '\n', |line|);
    FindFromFirst(s, "\n", 0, |line|);
  }

  /** Splitting the joined lines gives the lines back when none holds a newline. */
  lemma {:induction false} SplitOnJoin(lines: seq<string>)
    requires |lines| > 0
    requires forall k :: 0 <= k < |lines| ==> '\n' !in lines[k]
    ensures SplitOn(JoinLines(lines)) == lines
    decreases |lines|
  {
    var l0 := lines[0];
    if |lines| == 1 {
      NoNewlineIn(l0);
    } else {
      var rest := JoinLines(lines[1..]);
      var s := l0 + "\n" + rest;
      assert JoinLines(lines) == s;
      NewlineAfter(l0, rest);
      assert s[..|l0|] == l0;
      assert s[|l0| + 1..] == rest;
      SplitOnJoin(lines[1..]);
      assert SplitOn(s) == [l0] + lines[1..];
    }
  }

  /** Joining and splitting again keeps clean lines as they were. */
  lemma {:induction false} SplitLinesJoin(lines: seq<string>)
    requires CleanLines(lines)
    ensures SplitLines(JoinLines(lines)) == lines
  {
    if lines != [] {
      SplitOnJoin(lines);
    }
  }

  /** A character missing from every line is missing from their join. */
  lemma {:induction false} JoinLinesWithout(lines: seq<string>, c: char)
    requires c != '\n'
    requires forall k :: 0 <= k < |lines| ==> c !in lines[k]
    ensures c !in JoinLines(lines)
    decreases |lines|
  {
    if |lines| > 1 {
      JoinLinesWithout(lines[1..], c);
    }
  }

  // ---------------------------------------------------------------------
  // Character classes and maximal runs
  // ---------------------------------------------------------------------

  /** Whitespace as `\s` and `lstrip` see it: the six ASCII whitespace characters. */
  predicate IsSpace(c: char)
  {
    c == ' ' || c == '\t' || c == '\n' || c == '\r' || c == '\U{000B}' || c == '\U{000C}'
  }

  predicate NotSpace(c: char)
  {
    !IsSpace(c)
  }

  /** A character the regular-expression '.' matches (no DOTALL). */
  predicate NotNewline(c: char)
  {
    c != '\n'
  }

  /** End of the maximal run of characters satisfying `p` that starts at i (a greedy `[...]*`). */
  function RunEnd(s: string, i: nat, p: char -> bool): (j: nat)
    requires i <= |s|
    ensures i <= j <= |s|
    decreases |s| - i
  {
    if i == |s| || !p(s[i]) then i else RunEnd(s, i + 1, p)
  }

  /** [i, j) is a maximal run of characters satisfying `p`. */
  predicate MaximalRun(s: string, i: nat, j: nat, p: char -> bool)
  {
    i <= j <= |s| && (forall k :: i <= k < j ==> p(s[k])) && (j < |s| ==> !p(s[j]))
  }

  /** RunEnd stops exactly at the end of the maximal run. */
  lemma {:induction false} RunEndSpec(s: string, i: nat, p: char -> bool)
    requires i <= |s|
    ensures MaximalRun(s, i, RunEnd(s, i, p), p)
    decreases |s| - i
  {
    if i < |s| && p(s[i]) {
      RunEndSpec(s, i + 1, p);
    }
  }

  /** The maximal run is where RunEnd stops. */
  lemma {:induction false} RunEndOf(s: string, i: nat, j: nat, p: char -> bool)
    requires MaximalRun(s, i, j, p)
    ensures RunEnd(s, i, p) == j
    decreases j - i
  {
    if i < j {
      assert p(s[i]);
      RunEndOf(s, i + 1, j, p);
    }
  }

  /** A slice that starts with `a` splits into `a` and what follows. */
  lemma Peel(s: string, i: nat, j: nat, a: string, rest: string)
    requires i <= |s| && s[i..] == a + rest && j == i + |a|
    ensures j <= |s| && s[i..j] == a && s[j..] == rest
  {
    assert s[i..j] == s[i..][..|a|];
    assert s[j..] == s[i..][|a|..];
  }
}
