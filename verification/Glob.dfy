/**
 Wildcard matching with backtracking: `*` stands for any run, `?` for zero or one
 character, and a backslash makes the next pattern character literal.  Recursion
 stops below depth 16.

 Strings are the characters before the terminating NUL; running off the end of a
 sequence is reading that NUL.
 */
module Glob {

  const MAX_DEPTH := 16

  datatype Token =
    | Literal(c: char)
    | Star
    | Question
    | Dangling            // a backslash with nothing after it matches nothing

  // ----- What a pattern means -----

  function Parse(p: string): (tokens: seq<Token>)
    ensures |tokens| <= |p|
  {
    if p == "" then []
    else if p[0] == '*' then [Star] + Parse(p[1..])
    else if p[0] == '?' then [Question] + Parse(p[1..])
    else if p[0] != '\\' then [Literal(p[0])] + Parse(p[1..])
    else if |p| == 1 then [Dangling]
    else [Literal(p[1])] + Parse(p[2..])
  }

  /** The strings a token sequence stands for. */
  predicate Matches(tokens: seq<Token>, s: string)
    decreases |tokens|
  {
    if tokens == [] then s == ""
    else match tokens[0]
      case Literal(c) => s != "" && s[0] == c && Matches(tokens[1..], s[1..])
      case Star => exists k | 0 <= k <= |s| :: Matches(tokens[1..], s[k..])
      case Question => Matches(tokens[1..], s) || (s != "" && Matches(tokens[1..], s[1..]))
      case Dangling => false
  }

  predicate IsWild(t: Token) {
    t.Star? || t.Question?
  }

  predicate AllWild(tokens: seq<Token>) {
    forall t | t in tokens :: IsWild(t)
  }

  function Wildcards(tokens: seq<Token>): nat {
    if tokens == [] then 0 else Wildcards(tokens[1..]) + if IsWild(tokens[0]) then 1 else 0
  }

  /** What a matcher that may still spend `budget` wildcards makes of a pattern.
      The wildcard it cannot afford must start a tail of wildcards: a `*` there
      still takes the whole rest of the string, a `?` takes nothing. */
  function Affordable(tokens: seq<Token>, budget: nat): (r: seq<Token>) {
    if tokens == [] then []
    else if !IsWild(tokens[0]) then [tokens[0]] + Affordable(tokens[1..], budget)
    else if budget > 0 then [tokens[0]] + Affordable(tokens[1..], budget - 1)
    else if !AllWild(tokens) then [Dangling]
    else if tokens[0].Star? then [Star]
    else []
  }

  lemma {:induction false} AffordableIsExact(tokens: seq<Token>, budget: nat)
    requires Wildcards(tokens) <= budget
    ensures Affordable(tokens, budget) == tokens
  {
    if tokens != [] {
      AffordableIsExact(tokens[1..], if IsWild(tokens[0]) then budget - 1 else budget);
      assert tokens == [tokens[0]] + tokens[1..];
    }
  }

  lemma AllWildCons(t: Token, rest: seq<Token>)
    ensures AllWild([t] + rest) <==> IsWild(t) && AllWild(rest)
  {
    assert forall u :: u in [t] + rest <==> u == t || u in rest;
  }

  lemma {:induction false} AllWildMatchesEmpty(tokens: seq<Token>)
    ensures Matches(tokens, "") <==> AllWild(tokens)
  {
    if tokens != [] {
      AllWildMatchesEmpty(tokens[1..]);
      AllWildCons(tokens[0], tokens[1..]);
      assert tokens == [tokens[0]] + tokens[1..];
      assert ""[0..] == "";
    }
  }

  lemma {:induction false} AffordableMatchesEmpty(tokens: seq<Token>, budget: nat)
    ensures AllWild(Affordable(tokens, budget)) <==> AllWild(tokens)
  {
    if tokens != [] {
      assert tokens == [tokens[0]] + tokens[1..];
      if !IsWild(tokens[0]) {
        assert tokens[0] in Affordable(tokens, budget);
      } else if budget > 0 {
        AffordableMatchesEmpty(tokens[1..], budget - 1);
        AllWildCons(tokens[0], tokens[1..]);
        AllWildCons(tokens[0], Affordable(tokens[1..], budget - 1));
      } else {
        assert Dangling in [Dangling];
      }
    }
  }

  /** Cutting wildcards off a pattern only loses matches. */
  lemma {:induction false} AffordableIsSound(tokens: seq<Token>, budget: nat, s: string)
    requires Matches(Affordable(tokens, budget), s)
    ensures Matches(tokens, s)
    decreases |tokens|
  {
    if tokens != [] {
      var rest := tokens[1..];
      if !IsWild(tokens[0]) {
        assert Affordable(tokens, budget)[1..] == Affordable(rest, budget);
        AffordableIsSound(rest, budget, s[1..]);
      } else if budget > 0 {
        assert Affordable(tokens, budget)[1..] == Affordable(rest, budget - 1);
        forall u | Matches(Affordable(rest, budget - 1), u) ensures Matches(rest, u) {
          AffordableIsSound(rest, budget - 1, u);
        }
      } else {
        AllWildMatchesEmpty(tokens);
        AllWildMatchesEmpty(rest);
        if tokens[0].Star? {
          assert s[|s|..] == "" && Matches(rest, s[|s|..]);
        }
      }
    }
  }

  /** Too many wildcards before a last literal: nothing is ever matched. */
  lemma {:induction false} LiteralTailIsRejected(tokens: seq<Token>, budget: nat, s: string)
    requires tokens != [] && !IsWild(tokens[|tokens| - 1]) && Wildcards(tokens) > budget
    ensures !Matches(Affordable(tokens, budget), s)
    decreases |tokens|
  {
    var rest := tokens[1..];
    if !IsWild(tokens[0]) {
      if s != "" {
        LiteralTailIsRejected(rest, budget, s[1..]);
      }
      assert Affordable(tokens, budget)[1..] == Affordable(rest, budget);
    } else if budget > 0 {
      assert Affordable(tokens, budget)[1..] == Affordable(rest, budget - 1);
      var left: nat := budget - 1;
      forall u ensures !Matches(Affordable(rest, left), u) {
        LiteralTailIsRejected(rest, left, u);
      }
    } else {
      assert tokens[|tokens| - 1] in tokens;
    }
  }

  // ----- The matcher -----

  /** What the rest of a match, with `budget` wildcards to spend, must answer. */
  predicate Rest(p: string, i: nat, s: string, e: nat, budget: nat)
    requires i <= |p| && e <= |s|
  {
    Matches(Affordable(Parse(p[i..]), budget), s[e..])
  }

  /** Some split point from `lo` and before `hi` leaves a rest that matches. */
  predicate SomeRest(p: string, i: nat, s: string, lo: nat, hi: nat, budget: nat)
    requires i <= |p| && hi <= |s|
  {
    exists k | lo <= k < hi :: Rest(p, i, s, k, budget)
  }

  predicate IsWildcard(c: char) {
    c == '*' || c == '?'
  }

  /** The next pattern character at `i`, preceded by its backslash if escaped,
      against the next character of the string. */
  lemma RestOfLiteral(p: string, i: nat, s: string, e: nat, budget: nat, escaped: bool)
    requires i < |p| && e < |s|
    requires if escaped then i > 0 && p[i - 1] == '\\' else !IsWildcard(p[i]) && p[i] != '\\'
    ensures Rest(p, if escaped then i - 1 else i, s, e, budget) <==>
            p[i] == s[e] && Rest(p, i + 1, s, e + 1, budget)
  {
    var start := if escaped then i - 1 else i;
    var rest := Parse(p[i + 1..]);
    assert p[start..][if escaped then 2 else 1..] == p[i + 1..];
    assert Parse(p[start..]) == [Literal(p[i])] + rest;
    assert Affordable(Parse(p[start..]), budget) == [Literal(p[i])] + Affordable(rest, budget);
    assert s[e..][1..] == s[e + 1..];
  }

  lemma RestOfDangling(p: string, s: string, e: nat, budget: nat)
    requires p != "" && p[|p| - 1] == '\\' && e < |s|
    ensures !Rest(p, |p| - 1, s, e, budget) && !Rest(p, |p|, s, e, budget)
  {
    assert p[|p| - 1..] == "\\" && p[|p|..] == "";
  }

  lemma RestOfEmptyString(p: string, i: nat, s: string, budget: nat)
    requires i <= |p|
    ensures Rest(p, i, s, |s|, budget) <==> AllWild(Parse(p[i..]))
  {
    AllWildMatchesEmpty(Affordable(Parse(p[i..]), budget));
    AffordableMatchesEmpty(Parse(p[i..]), budget);
    assert s[|s|..] == "";
  }

  lemma RestOfQuestion(p: string, i: nat, s: string, e: nat, budget: nat)
    requires i < |p| && p[i] == '?' && e < |s|
    ensures Rest(p, i, s, e, budget) <==>
            budget > 0 && (Rest(p, i + 1, s, e, budget - 1) || Rest(p, i + 1, s, e + 1, budget - 1))
  {
    var tokens := Parse(p[i..]);
    assert p[i..][1..] == p[i + 1..];
    assert tokens[1..] == Parse(p[i + 1..]);
    if budget > 0 {
      assert Affordable(tokens, budget)[1..] == Affordable(tokens[1..], budget - 1);
      assert s[e..][1..] == s[e + 1..];
    }
  }

  lemma RestOfStar(p: string, i: nat, s: string, e: nat, budget: nat)
    requires i < |p| && p[i] == '*' && e <= |s|
    ensures Rest(p, i, s, e, budget) <==>
            || AllWild(Parse(p[i..]))
            || (budget > 0 && SomeRest(p, i + 1, s, e, |s|, budget - 1))
  {
    var tokens := Parse(p[i..]);
    var rest := tokens[1..];
    assert p[i..][1..] == p[i + 1..];
    assert rest == Parse(p[i + 1..]);
    AllWildCons(Star, rest);
    assert tokens == [Star] + rest;
    if budget > 0 {
      assert Affordable(tokens, budget)[1..] == Affordable(rest, budget - 1);
      var (next, left) := (i + 1, budget - 1);
      var (tail, after) := (s[e..], Affordable(rest, left));
      RestOfEmptyString(p, next, s, left);
      forall k | e <= k <= |s|
        ensures Rest(p, next, s, k, left) <==> Matches(after, tail[k - e..])
      {
        assert tail[k - e..] == s[k..];
      }
      if Rest(p, i, s, e, budget) {
        var k :| 0 <= k <= |tail| && Matches(after, tail[k..]);
        assert Rest(p, next, s, e + k, left) by {
          assert tail[e + k - e..] == tail[k..];
        }
      }
      if k :| e <= k <= |s| && Rest(p, next, s, k, left) {
        assert Matches(after, tail[k - e..]);
      }
    } else {
      var tail := s[e..];
      assert [Star][1..] == [] && tail[|tail|..] == "";
      assert Matches([Star][1..], tail[|tail|..]);
    }
  }

  method EatSameChars(p: string, i0: nat, s: string, e0: nat, ghost budget: nat)
    returns (i: nat, e: nat)
    requires i0 <= |p| && e0 <= |s|
    ensures i0 <= i <= |p| && e0 <= e <= |s|
    ensures Rest(p, i, s, e, budget) <==> Rest(p, i0, s, e0, budget)
    ensures i < |p| && e < |s| && !IsWildcard(p[i]) ==> !Rest(p, i, s, e, budget)
  {
    hide Rest;
    i, e := i0, e0;
    var escaped := false;
    while i < |p| && e < |s|
      invariant i0 <= i <= |p| && e0 <= e <= |s|
      invariant escaped ==> i0 < i && p[i - 1] == '\\' && e < |s|
      invariant Rest(p, if escaped then i - 1 else i, s, e, budget) <==> Rest(p, i0, s, e0, budget)
      decreases |p| - i
    {
      if !escaped && IsWildcard(p[i]) {
        return;
      }
      if !escaped && p[i] == '\\' {
        escaped := true;
        i := i + 1;
        continue;
      }
      RestOfLiteral(p, i, s, e, budget, escaped);
      if p[i] == s[e] {
        i := i + 1;
        e := e + 1;
      } else {
        // not a match: step back to the backslash
        if escaped {
          i := i - 1;
        }
        return;
      }
      escaped := false;
    }
    if escaped {
      RestOfDangling(p, s, e, budget);
    }
  }

  method EatWildcard(p: string, i0: nat) returns (i: nat)
    requires i0 <= |p|
    ensures i0 <= i <= |p|
    ensures i == |p| <==> AllWild(Parse(p[i0..]))
  {
    i := i0;
    while i < |p|
      invariant i0 <= i <= |p|
      invariant AllWild(Parse(p[i0..])) <==> AllWild(Parse(p[i..]))
    {
      var tokens := Parse(p[i..]);
      if !IsWildcard(p[i]) {
        assert tokens[0] in tokens;
        return;
      }
      assert p[i..][1..] == p[i + 1..];
      AllWildCons(tokens[0], Parse(p[i + 1..]));
      i := i + 1;
    }
    assert p[i..] == "";
  }

  method MatchPatternT(s: string, e0: nat, p: string, i0: nat, depth: nat) returns (matched: bool)
    requires i0 <= |p| && e0 <= |s|
    ensures matched <==> depth <= MAX_DEPTH && Rest(p, i0, s, e0, MAX_DEPTH - depth)
    decreases |p| - i0
  {
    if depth > MAX_DEPTH {
      return false;
    }
    ghost var budget: nat := MAX_DEPTH - depth;
    var i, e := EatSameChars(p, i0, s, e0, budget);
    if e == |s| {
      RestOfEmptyString(p, i, s, budget);
      var end := EatWildcard(p, i);
      return end == |p|;
    }
    if i == |p| {
      assert p[i..] == "";
      return false;
    }
    if p[i] == '?' {
      RestOfQuestion(p, i, s, e, budget);
      var skipped := MatchPatternT(s, e, p, i + 1, depth + 1);
      if skipped {
        return true;
      }
      var taken := MatchPatternT(s, e + 1, p, i + 1, depth + 1);
      if taken {
        return true;
      }
    }
    if p[i] == '*' {
      RestOfStar(p, i, s, e, budget);
      ghost var start := e;
      while e < |s|
        invariant start <= e <= |s|
        invariant budget > 0 ==> !SomeRest(p, i + 1, s, start, e, budget - 1)
      {
        var rest := MatchPatternT(s, e, p, i + 1, depth + 1);
        if rest {
          return true;
        }
        e := e + 1;
      }
      var end := EatWildcard(p, i);
      return end == |p|;
    }
    return false;
  }

  method MatchPattern(s: string, p: string) returns (matched: bool)
    ensures matched <==> Matches(Affordable(Parse(p), 16), s)
    ensures matched ==> Matches(Parse(p), s)
    ensures Wildcards(Parse(p)) <= 16 ==> (matched <==> Matches(Parse(p), s))
    ensures Dangling in Parse(p) || Covered(Parse(p), 16, false) ==> (matched <==> Matches(Parse(p), s))
  {
    assert p[0..] == p && s[0..] == s;
    matched := MatchPatternT(s, 0, p, 0, 0);
    if matched {
      AffordableIsSound(Parse(p), MAX_DEPTH, s);
    }
    if Wildcards(Parse(p)) <= MAX_DEPTH {
      AffordableIsExact(Parse(p), MAX_DEPTH);
    }
    LimitIsHarmless(Parse(p), MAX_DEPTH);
  }

  // ----- Which patterns the depth limit spoils -----

  /** The first wildcard beyond `budget`, if there is one, starts a tail of wildcards,
      and it or the wildcards just before it include a star. `star` is whether those
      before the first token do. */
  predicate Covered(tokens: seq<Token>, budget: nat, star: bool) {
    if tokens == [] then true
    else if !IsWild(tokens[0]) then Covered(tokens[1..], budget, false)
    else if budget > 0 then Covered(tokens[1..], budget - 1, star || tokens[0].Star?)
    else AllWild(tokens) && (star || tokens[0].Star?)
  }

  predicate SuffixMatches(tokens: seq<Token>, s: string) {
    exists k | 0 <= k <= |s| :: Matches(tokens, s[k..])
  }

  lemma SuffixOfSuffix(tokens: seq<Token>, s: string, k: nat)
    requires k <= |s| && SuffixMatches(tokens, s[k..])
    ensures SuffixMatches(tokens, s)
  {
    var j :| 0 <= j <= |s[k..]| && Matches(tokens, s[k..][j..]);
    assert s[k..][j..] == s[k + j..];
  }

  lemma WildMovesOn(t: Token, rest: seq<Token>, s: string)
    requires IsWild(t)
    ensures SuffixMatches(rest, s) ==> SuffixMatches([t] + rest, s)
    ensures Matches([t] + rest, s) ==> SuffixMatches(rest, s)
  {
    assert ([t] + rest)[1..] == rest && s[0..] == s;
    if k :| 0 <= k <= |s| && Matches(rest, s[k..]) {
      assert s[k..][0..] == s[k..];
      assert Matches([t] + rest, s[k..]);
    }
  }

  /** Where the pattern is covered, cutting wildcards off loses no match. */
  lemma {:induction false} CoveredLosesNothing(tokens: seq<Token>, budget: nat, star: bool, s: string)
    requires Covered(tokens, budget, star) && Matches(tokens, s)
    ensures if star then SuffixMatches(Affordable(tokens, budget), s)
            else Matches(Affordable(tokens, budget), s)
    decreases |tokens|
  {
    assert s[0..] == s;
    if tokens != [] {
      var (t, rest) := (tokens[0], tokens[1..]);
      assert tokens == [t] + rest;
      if !IsWild(t) {
        var after := Affordable(rest, budget);
        assert Affordable(tokens, budget)[1..] == after;
        CoveredLosesNothing(rest, budget, false, s[1..]);
      } else if budget > 0 {
        var left: nat := budget - 1;
        var after := Affordable(rest, left);
        assert Affordable(tokens, budget) == [t] + after;
        assert ([t] + after)[1..] == after;
        if star || t.Star? {
          WildMovesOn(t, rest, s);
          var k :| 0 <= k <= |s| && Matches(rest, s[k..]);
          CoveredLosesNothing(rest, left, true, s[k..]);
          SuffixOfSuffix(after, s, k);
          WildMovesOn(t, after, s);
        } else {
          forall u | Matches(rest, u) ensures Matches(after, u) {
            CoveredLosesNothing(rest, left, false, u);
          }
        }
      } else {
        assert s[|s|..] == "";
        AllWildMatchesEmpty(Affordable(tokens, budget));
        assert t.Star? ==> Matches([Star][1..], s[|s|..]);
      }
    }
  }

  /** A pattern that is not covered, and whose tail is not rejected outright, is a head
      ending in a literal, some `?`, one `?` too many and more wildcards; only the last
      two are cut off. */
  lemma {:induction false} SplitUncovered(tokens: seq<Token>, budget: nat, star: bool)
    returns (head: seq<Token>, k: nat, more: seq<Token>)
    requires Dangling !in Affordable(tokens, budget) && !Covered(tokens, budget, star)
    ensures tokens == head + Questions(k) + [Question] + more && AllWild(more)
    ensures Affordable(tokens, budget) == head + Questions(k)
    ensures if head == [] then !star else head[|head| - 1].Literal?
    decreases |tokens|
  {
    var (t, rest) := (tokens[0], tokens[1..]);
    assert tokens == [t] + rest;
    if IsWild(t) && budget == 0 {
      assert forall u | u in rest :: u in tokens;
      assert Affordable(tokens, 0) != [Dangling] by {
        assert Dangling in [Dangling];
      }
      head, k, more := [], 0, rest;
    } else {
      var left: nat := if IsWild(t) then budget - 1 else budget;
      var after := Affordable(rest, left);
      assert Affordable(tokens, budget) == [t] + after;
      assert t.Dangling? ==> t in [t] + after;
      head, k, more := SplitUncovered(rest, left, IsWild(t) && (star || t.Star?));
      head, k := SplitPush(t, head, k, more);
    }
  }

  lemma SplitPush(t: Token, head: seq<Token>, k: nat, more: seq<Token>) returns (head': seq<Token>, k': nat)
    requires !t.Dangling? && (head == [] ==> t.Literal? || t.Question?)
    requires head != [] ==> head[|head| - 1].Literal?
    ensures [t] + (head + Questions(k)) == head' + Questions(k')
    ensures [t] + (head + Questions(k) + [Question] + more) == head' + Questions(k') + [Question] + more
    ensures if head' == [] then head == [] && t.Question? else head'[|head'| - 1].Literal?
  {
    if head == [] && t.Question? {
      assert [t] + Questions(k) == Questions(k + 1);
      head', k' := [], k + 1;
    } else {
      head', k' := [t] + head, k;
    }
    assert [t] + (head + Questions(k)) == head' + Questions(k');
  }

  function Questions(n: nat): (r: seq<Token>)
    ensures |r| == n && forall t | t in r :: t.Question?
  {
    if n == 0 then [] else [Question] + Questions(n - 1)
  }

  /** A string the tokens match: its literals, the wildcards taking nothing. */
  function Literals(tokens: seq<Token>): string {
    if tokens == [] then ""
    else (if tokens[0].Literal? then [tokens[0].c] else "") + Literals(tokens[1..])
  }

  lemma OneMoreMatches(t: Token, rest: seq<Token>, u: string)
    requires !t.Dangling? && Matches(rest, u)
    ensures Matches([t] + rest, (if t.Literal? then [t.c] else "") + u)
  {
    var tokens := [t] + rest;
    assert tokens[1..] == rest;
    if t.Literal? {
      assert ([t.c] + u)[1..] == u;
    } else {
      assert "" + u == u && u[0..] == u;
    }
  }

  lemma {:induction false} LiteralsMatch(head: seq<Token>, rest: seq<Token>, u: string)
    requires Dangling !in head && Matches(rest, u)
    ensures Matches(head + rest, Literals(head) + u)
    decreases |head|
  {
    hide Matches;
    if head == [] {
      assert [] + rest == rest && "" + u == u;
    } else {
      var (t, front) := (head[0], if head[0].Literal? then [head[0].c] else "");
      assert t in head;
      LiteralsMatch(head[1..], rest, u);
      OneMoreMatches(t, head[1..] + rest, Literals(head[1..]) + u);
      assert head + rest == [t] + (head[1..] + rest);
      assert Literals(head) + u == front + (Literals(head[1..]) + u);
    }
  }

  lemma {:induction false} DanglingMatchesNothing(tokens: seq<Token>, s: string)
    requires Dangling in tokens
    ensures !Matches(tokens, s)
    decreases |tokens|
  {
    if !tokens[0].Dangling? {
      var rest := tokens[1..];
      assert tokens == [tokens[0]] + rest;
      forall u ensures !Matches(rest, u) { DanglingMatchesNothing(rest, u); }
    }
  }

  function Filler(c: char, n: nat): string {
    seq(n, _ => c)
  }

  lemma {:induction false} QuestionsTake(n: nat, more: seq<Token>, c: char)
    requires AllWild(more)
    ensures Matches(Questions(n) + more, Filler(c, n))
  {
    if n == 0 {
      AllWildMatchesEmpty(more);
      assert [] + more == more;
    } else {
      QuestionsTake(n - 1, more, c);
      assert (Questions(n) + more)[1..] == Questions(n - 1) + more;
      assert Filler(c, n)[1..] == Filler(c, n - 1);
    }
  }

  lemma {:induction false} QuestionsTakeNoMore(n: nat, s: string)
    requires Matches(Questions(n), s)
    ensures |s| <= n
  {
    if n > 0 {
      assert Questions(n)[1..] == Questions(n - 1);
      QuestionsTakeNoMore(n - 1, if Matches(Questions(n - 1), s) then s else s[1..]);
    }
  }

  lemma {:induction false} HeadLeavesSuffix(head: seq<Token>, rest: seq<Token>, s: string)
    requires Matches(head + rest, s)
    ensures SuffixMatches(rest, s)
    decreases |head|
  {
    assert s[0..] == s;
    if head == [] {
      assert [] + rest == rest;
    } else {
      var after := head[1..] + rest;
      assert head + rest == [head[0]] + after && ([head[0]] + after)[1..] == after;
      if IsWild(head[0]) {
        WildMovesOn(head[0], after, s);
      }
      var k: nat :| k <= |s| && Matches(after, s[k..]);
      HeadLeavesSuffix(head[1..], rest, s[k..]);
      SuffixOfSuffix(rest, s, k);
    }
  }

  /** One character too many behind the last literal. */
  lemma TooManyCharacters(head: seq<Token>, k: nat, front: string, c: char)
    requires head != [] ==> head[|head| - 1].Literal? && head[|head| - 1].c != c
    requires head == [] ==> front == ""
    ensures !Matches(head + Questions(k), front + Filler(c, k + 1))
  {
    var s := front + Filler(c, k + 1);
    if Matches(head + Questions(k), s) {
      if head == [] {
        assert head + Questions(k) == Questions(k);
        QuestionsTakeNoMore(k, s);
      } else {
        var last := head[|head| - 1];
        var rest := [last] + Questions(k);
        assert head + Questions(k) == head[..|head| - 1] + rest;
        HeadLeavesSuffix(head[..|head| - 1], rest, s);
        var j: nat :| j <= |s| && Matches(rest, s[j..]);
        assert rest[1..] == Questions(k) && s[j..][0] == s[j];
        QuestionsTakeNoMore(k, s[j..][1..]);
      }
    }
  }

  lemma QuestionsPush(k: nat, more: seq<Token>)
    ensures Questions(k) + [Question] + more == Questions(k + 1) + more
  {
    var (a, b) := (Questions(k) + [Question], Questions(k + 1));
    forall i | 0 <= i < |a| ensures a[i] == b[i] {
      assert b[i] in b && (i < k ==> a[i] in Questions(k));
    }
  }

  lemma Regroup(head: seq<Token>, a: seq<Token>, b: seq<Token>, c: seq<Token>)
    ensures head + a + b + c == head + (a + b + c)
  {
  }

  lemma SpoiledTail(head: seq<Token>, k: nat, more: seq<Token>) returns (s: string)
    requires Dangling !in head && AllWild(more)
    requires head != [] ==> head[|head| - 1].Literal?
    ensures Matches(head + Questions(k) + [Question] + more, s) && !Matches(head + Questions(k), s)
  {
    var c := if head != [] && head[|head| - 1].c == 'a' then 'b' else 'a';
    s := Literals(head) + Filler(c, k + 1);
    var rest := Questions(k + 1) + more;
    QuestionsTake(k + 1, more, c);
    QuestionsPush(k, more);
    Regroup(head, Questions(k), [Question], more);
    LiteralsMatch(head, rest, Filler(c, k + 1));
    TooManyCharacters(head, k, Literals(head), c);
  }

  /** A string that only the whole pattern matches. */
  lemma SpoiledString(tokens: seq<Token>, budget: nat) returns (s: string)
    requires Dangling !in tokens && !Covered(tokens, budget, false)
    ensures Matches(tokens, s) && !Matches(Affordable(tokens, budget), s)
  {
    hide Matches, Covered, Affordable, Literals, Questions;
    if Dangling in Affordable(tokens, budget) {
      s := Literals(tokens) + "";
      AllWildMatchesEmpty([]);
      LiteralsMatch(tokens, [], "");
      assert tokens + [] == tokens;
      DanglingMatchesNothing(Affordable(tokens, budget), s);
    } else {
      var head, k, more := SplitUncovered(tokens, budget, false);
      assert forall t | t in head :: t in tokens;
      s := SpoiledTail(head, k, more);
    }
  }

  /** The depth limit changes no answer for a pattern that matches nothing anyway
      or is covered, and changes some answer for every other pattern. */
  lemma LimitIsHarmless(tokens: seq<Token>, budget: nat)
    ensures (forall s :: Matches(Affordable(tokens, budget), s) <==> Matches(tokens, s))
            <==> Dangling in tokens || Covered(tokens, budget, false)
  {
    if Dangling in tokens || Covered(tokens, budget, false) {
      forall s ensures Matches(Affordable(tokens, budget), s) <==> Matches(tokens, s) {
        if Matches(Affordable(tokens, budget), s) {
          AffordableIsSound(tokens, budget, s);
        } else if Dangling in tokens {
          DanglingMatchesNothing(tokens, s);
        } else if Matches(tokens, s) {
          CoveredLosesNothing(tokens, budget, false, s);
        }
      }
    } else {
      var s := SpoiledString(tokens, budget);
    }
  }

  lemma {:induction false} FewWildcardsAreCovered(tokens: seq<Token>, budget: nat, star: bool)
    requires Wildcards(tokens) <= budget
    ensures Covered(tokens, budget, star)
  {
    if tokens != [] {
      FewWildcardsAreCovered(tokens[1..], if IsWild(tokens[0]) then budget - 1 else budget,
                             IsWild(tokens[0]) && (star || tokens[0].Star?));
    }
  }

  // ----- One wildcard too many -----

  function Stars(n: nat): string {
    if n == 0 then "" else "*" + Stars(n - 1)
  }

  lemma ParseStar(n: nat, tail: string)
    requires n > 0
    ensures Parse(Stars(n) + tail) == [Star] + Parse(Stars(n - 1) + tail)
  {
    assert (Stars(n) + tail)[1..] == Stars(n - 1) + tail;
  }

  lemma StarInFront(rest: seq<Token>, n: nat)
    requires 0 < n <= |rest| + 1
    ensures ([Star] + rest)[n..] == rest[n - 1..] && Wildcards([Star] + rest) == 1 + Wildcards(rest)
  {
    assert ([Star] + rest)[1..] == rest;
  }

  lemma {:induction false} ParseStars(n: nat, tail: string)
    ensures var tokens := Parse(Stars(n) + tail);
            && Wildcards(tokens) == n + Wildcards(Parse(tail))
            && |tokens| == n + |Parse(tail)| && tokens[n..] == Parse(tail)
  {
    if n == 0 {
      assert Stars(0) + tail == tail;
    } else {
      ParseStars(n - 1, tail);
      ParseStar(n, tail);
      hide Parse, Stars;
      var rest := Parse(Stars(n - 1) + tail);
      StarInFront(rest, n);
    }
  }

  lemma {:induction false} StarsMatchNothing(n: nat, tail: string, s: string)
    requires Matches(Parse(tail), s)
    ensures Matches(Parse(Stars(n) + tail), s)
  {
    if n == 0 {
      assert Stars(0) + tail == tail;
    } else {
      StarsMatchNothing(n - 1, tail, s);
      ParseStar(n, tail);
      hide Parse, Stars;
      var rest := Parse(Stars(n - 1) + tail);
      assert ([Star] + rest)[1..] == rest && s[0..] == s;
    }
  }

  /** Seventeen stars and an `a` mean every string ending in `a`, yet sixteen are all
      that can be afforded, and no string is taken. */
  lemma SeventeenStarsFail(s: string)
    ensures var tokens := Parse(Stars(17) + "a");
            Matches(tokens, "a") && !Matches(Affordable(tokens, 16), s)
  {
    var tokens := Parse(Stars(17) + "a");
    ParseStars(17, "a");
    assert Parse("a") == [Literal('a')];
    assert "a"[1..] == "" && [Literal('a')][1..] == [];
    StarsMatchNothing(17, "a", "a");
    assert tokens[17..][0] == tokens[|tokens| - 1];
    LiteralTailIsRejected(tokens, 16, s);
  }

  /** So the matcher refuses what that pattern means, while it takes it with one star
      less. */
  method SeventeenStarsRefused() returns (seventeen: bool, sixteen: bool)
    ensures !seventeen && sixteen
  {
    SeventeenStarsFail("a");
    seventeen := MatchPattern("a", Stars(17) + "a");
    ParseStars(16, "a");
    assert Parse("a") == [Literal('a')];
    assert "a"[1..] == "" && [Literal('a')][1..] == [];
    StarsMatchNothing(16, "a", "a");
    sixteen := MatchPattern("a", Stars(16) + "a");
  }

  /** The pattern language by an example: wildcards, escaped characters, and a backslash
      with nothing behind it. */
  lemma PatternsMean()
    ensures Parse("*?a\\*\\?\\\\") == [Star, Question, Literal('a'), Literal('*'), Literal('?'), Literal('\\')]
    ensures Parse("a\\") == [Literal('a'), Dangling]
  {
    var p := "*?a\\*\\?\\\\";
    assert Parse(p[7..]) == [Literal('\\')];
    assert Parse(p[5..]) == [Literal('?'), Literal('\\')];
    assert Parse(p[3..]) == [Literal('*'), Literal('?'), Literal('\\')];
    assert Parse(p[2..]) == [Literal('a'), Literal('*'), Literal('?'), Literal('\\')];
    assert "a\\"[1..] == "\\";
  }
}
