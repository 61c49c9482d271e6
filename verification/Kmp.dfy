/**
 Knuth-Morris-Pratt search: the partial-match table built in place, and the
 matcher that falls back along it without ever moving back in the text.
 */
module Kmp {

  /** `k` is the length of a proper border of the first `i` pattern characters: the
      first `k` of them are also the last `k`. */
  ghost predicate Border(p: string, i: int, k: int) {
    0 <= k < i <= |p| && p[..k] == p[i - k..i]
  }

  ghost predicate NoBorderAbove(p: string, i: int, k: int) {
    forall m :: Border(p, i, m) ==> m <= k
  }

  ghost predicate LongestBorder(p: string, i: int, k: int) {
    Border(p, i, k) && NoBorderAbove(p, i, k)
  }

  ghost predicate OccursAt(p: string, text: string, at: int) {
    0 <= at <= |text| - |p| && text[at..at + |p|] == p
  }

  lemma OccursChar(p: string, text: string, at: int, k: int)
    ensures OccursAt(p, text, at) && 0 <= k < |p| ==> text[at + k] == p[k]
  {
    if OccursAt(p, text, at) && 0 <= k < |p| {
      assert text[at..at + |p|][k] == p[k];
    }
  }

  /** A border of `i + 1` characters is a border of `i` followed by a matching
      character. */
  lemma BorderStep(p: string, i: int, k: int)
    requires 1 <= k <= i < |p|
    ensures Border(p, i + 1, k) <==> Border(p, i, k - 1) && p[k - 1] == p[i]
  {
    var (front, back) := (p[..k - 1], p[i - k + 1..i]);
    assert p[..k] == front + [p[k - 1]];
    assert p[i + 1 - k..i + 1] == back + [p[i]];
    if Border(p, i + 1, k) {
      assert p[..k][..k - 1] == p[i + 1 - k..i + 1][..k - 1];
      assert p[..k][k - 1] == p[i + 1 - k..i + 1][k - 1];
      assert front == back;
    }
  }

  /** A shorter border of the same prefix is a border of the longer border. */
  lemma BorderOfBorder(p: string, i: int, k: int, m: int)
    requires Border(p, i, k) && 0 <= m < k
    ensures Border(p, i, m) <==> Border(p, k, m)
  {
    assert p[k - m..k] == p[..k][k - m..];
    assert p[i - m..i] == p[i - k..i][k - m..];
  }

  /** The candidate for the next table entry: one more than some border of `i`, or
      zero; nothing larger is a border of `i + 1`. */
  ghost predicate Candidate(p: string, i: int, c: int) {
    && 0 <= c <= i < |p|
    && (c > 0 ==> Border(p, i, c - 1))
    && NoBorderAbove(p, i + 1, c)
  }

  lemma CandidateFallsBack(p: string, i: int, c: int, next: int)
    requires Candidate(p, i, c) && c > 0 && p[i] != p[c - 1]
    requires if c == 1 then next == -1 else LongestBorder(p, c - 1, next)
    ensures Candidate(p, i, next + 1) && 0 <= next + 1 < c
  {
    if c > 1 {
      BorderOfBorder(p, i, c - 1, next);
    }
    var n := i + 1;
    forall m | Border(p, n, m) ensures m <= next + 1 {
      if m > 0 {
        BorderStep(p, i, m);
        if m < c {
          BorderOfBorder(p, i, c - 1, m - 1);
        }
      }
    }
  }

  lemma CandidateSucceeds(p: string, i: int, c: int)
    requires Candidate(p, i, c) && (c == 0 || p[i] == p[c - 1])
    ensures LongestBorder(p, i + 1, c)
  {
    if c > 0 {
      BorderStep(p, i, c);
    }
  }

  lemma FirstCandidate(p: string, i: int, border: int)
    requires 0 <= i < |p| && if i == 0 then border == -1 else LongestBorder(p, i, border)
    ensures Candidate(p, i, border + 1) && 0 <= border + 1 <= i
  {
    var n := i + 1;
    forall m | Border(p, n, m) ensures m <= border + 1 {
      if m > 0 {
        BorderStep(p, i, m);
      }
    }
  }

  /** Matching has reached `text[i]` with the first `j` pattern characters matched
      just before it, and the pattern starts nowhere earlier. */
  ghost predicate Matched(p: string, text: string, i: int, j: int) {
    && 0 <= j <= i <= |text| && j < |p|
    && text[i - j..i] == p[..j]
    && forall at | 0 <= at < i - j :: !OccursAt(p, text, at)
  }

  lemma MatchedMore(p: string, text: string, i: int, j: int)
    requires Matched(p, text, i, j) && i < |text| && 0 <= j < |p| && text[i] == p[j]
    ensures if j + 1 < |p| then Matched(p, text, i + 1, j + 1)
            else i + 1 >= |p| && OccursAt(p, text, i + 1 - |p|)
                 && forall at | 0 <= at < i + 1 - |p| :: !OccursAt(p, text, at)
  {
    assert text[i - j..i + 1] == text[i - j..i] + [text[i]];
    assert p[..j + 1] == p[..j] + [p[j]];
  }

  lemma EmptyOccurs(p: string, text: string)
    requires p == ""
    ensures OccursAt(p, text, 0)
  {
  }

  lemma MatchedInit(p: string, text: string)
    requires p != ""
    ensures Matched(p, text, 0, 0)
  {
  }

  lemma MatchedToTheEnd(p: string, text: string, i: int, j: int)
    requires Matched(p, text, i, j) && i == |text|
    ensures forall at :: !OccursAt(p, text, at)
  {
  }

  lemma MatchedNothing(p: string, text: string, i: int)
    requires Matched(p, text, i, 0) && 0 <= i < |text| && p != "" && text[i] != p[0]
    ensures Matched(p, text, i + 1, 0)
  {
    OccursChar(p, text, i, 0);
  }

  /** On a mismatch after `j` characters the next possible start is given by the
      longest border of those `j` characters. */
  lemma MatchedFallsBack(p: string, text: string, i: int, j: int, k: int)
    requires Matched(p, text, i, j) && 0 <= i < |text| && 0 < j < |p| && text[i] != p[j]
    requires LongestBorder(p, j, k)
    ensures Matched(p, text, i, k) && 0 <= k < j
  {
    assert text[i - k..i] == text[i - j..i][j - k..];
    assert p[..j][j - k..] == p[j - k..j];
    forall at | 0 <= at < i - k ensures !OccursAt(p, text, at) {
      if OccursAt(p, text, at) {
        assert at >= i - j;
        if at == i - j {
          OccursChar(p, text, at, j);
        } else {
          var m := i - at;
          assert text[at..at + |p|][..m] == text[at..i] == p[..m];
          assert text[i - j..i][j - m..] == text[at..i] && p[..j][j - m..] == p[j - m..j];
          assert Border(p, j, m);
        }
      }
    }
  }

  /** The text a negative length denotes is empty. */
  function Prefix(text: string, len: int): string
    requires len <= |text|
  {
    text[..if len < 0 then 0 else len]
  }

  class KMPPattern {
    const pattern: string
    const table: array<int>
    ghost var buildSteps: nat     // characters compared while building the table

    /** Entry `i` is the longest proper border of the first `i` characters. */
    ghost predicate Valid()
      reads this, table
    {
      && table.Length == |pattern|
      && (|pattern| > 0 ==> table[0] == -1)
      && forall i | 1 <= i < |pattern| :: LongestBorder(pattern, i, table[i])
    }

    /** Entries below `n` are right. */
    ghost predicate FilledTo(n: int)
      reads this, table
    {
      && table.Length == |pattern|
      && (|pattern| > 0 ==> table[0] == -1)
      && forall i | 1 <= i < n && i < |pattern| :: LongestBorder(pattern, i, table[i])
    }

    constructor (pattern: string)
      ensures Valid() && this.pattern == pattern && fresh(table)
      ensures buildSteps <= 2 * |pattern|
    {
      this.pattern := pattern;
      table := new int[|pattern|];
      buildSteps := 0;
      new;
      var size := |pattern|;
      if size > 0 {
        table[0] := -1;
      }
      var i := 1;
      while i < size
        invariant 1 <= i && (size > 0 ==> i <= size && buildSteps + table[i - 1] <= 2 * i - 3)
        invariant FilledTo(i)
        invariant size == 0 ==> buildSteps == 0
      {
        FillEntry(i);
        i := i + 1;
      }
    }

    /** One turn of the constructor's loop. */
    method FillEntry(i: int)
      requires 1 <= i < |pattern| && FilledTo(i)
      modifies table, this`buildSteps
      ensures FilledTo(i + 1)
      ensures buildSteps + table[i] <= old(buildSteps + table[i - 1]) + 2
    {
      hide Border, LongestBorder, Candidate;
      table[i] := table[i - 1] + 1;
      FirstCandidate(pattern, i - 1, table[i - 1]);
      while table[i] > 0 && pattern[i - 1] != pattern[table[i] - 1]
        invariant FilledTo(i) && 0 <= table[i] < i
        invariant Candidate(pattern, i - 1, table[i])
        invariant buildSteps + table[i] <= old(buildSteps + table[i - 1]) + 1
        decreases table[i]
      {
        buildSteps := buildSteps + 1;
        ghost var c := table[i];
        table[i] := table[table[i] - 1] + 1;
        CandidateFallsBack(pattern, i - 1, c, table[i] - 1);
      }
      buildSteps := buildSteps + 1;
      CandidateSucceeds(pattern, i - 1, table[i]);
    }

    /** The least index at which the pattern occurs in the first `len` characters,
        or -1; at most `2 * len` characters are compared. */
    method Match(text: string, len: int) returns (at: int, ghost compared: nat)
      requires Valid() && len <= |text|
      ensures compared <= 2 * |Prefix(text, len)|
      ensures at == -1 <==> forall k :: !OccursAt(pattern, Prefix(text, len), k)
      ensures at != -1 ==>
                && OccursAt(pattern, Prefix(text, len), at)
                && forall k | 0 <= k < at :: !OccursAt(pattern, Prefix(text, len), k)
    {
      ghost var t := Prefix(text, len);
      compared := 0;
      if |pattern| == 0 {
        EmptyOccurs(pattern, t);
        return 0, 0;
      }
      var j := 0;
      var i := 0;
      MatchedInit(pattern, t);
      while i < len
        invariant 0 <= i <= |t| && 0 <= j < |pattern|
        invariant Matched(pattern, t, i, j)
        invariant compared + j <= 2 * i
        decreases 2 * (len - i) + j
      {
        compared := compared + 1;
        if text[i] == pattern[j] {
          MatchedMore(pattern, t, i, j);
          j := j + 1;
          if j == |pattern| {
            return i - |pattern| + 1, compared;
          }
          i := i + 1;
        } else if j != 0 {
          MatchedFallsBack(pattern, t, i, j, table[j]);
          j := table[j];   // the same character is examined again
        } else {
          MatchedNothing(pattern, t, i);
          i := i + 1;
        }
      }
      MatchedToTheEnd(pattern, t, i, j);
      at := -1;
    }
  }
}
