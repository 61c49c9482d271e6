/**
 Whitespace collapsing: a one-pass state machine that writes into a buffer of the
 text's size through a cursor, and takes back the last space where it turns out
 not to be wanted.
 */
module Whitespace {

  /** The code points of the whitespace table.  The search that tests membership also
      finds the table's terminating NUL. */
  predicate IsWhitespace(c: char) {
    var n := c as int;
    || 0x9 <= n <= 0xD || n == 0x20 || n == 0x85 || n == 0xA0 || n == 0x1680 || n == 0x180E
    || 0x2000 <= n <= 0x200A || n == 0x200C || n == 0x2028 || n == 0x2029 || n == 0x202F
    || n == 0x205F || n == 0x3000 || n == 0
  }

  predicate IsLineBreak(c: char) {
    c == '\n' || c == '\r'
  }

  /** The whitespace table, entry by entry, its terminating NUL included. */
  const TABLE: seq<int> := [
    0x0009, 0x000A, 0x000B, 0x000C, 0x000D, 0x0020, 0x0085, 0x00A0, 0x1680, 0x180E,
    0x2000, 0x2001, 0x2002, 0x2003, 0x2004, 0x2005, 0x2006, 0x2007, 0x2008, 0x2009, 0x200A,
    0x200C, 0x2028, 0x2029, 0x202F, 0x205F, 0x3000, 0]

  lemma WhitespaceIsInTable(c: char)
    ensures IsWhitespace(c) <==> c as int in TABLE
    ensures IsLineBreak(c) <==> c as int == 0x000A || c as int == 0x000D
  {
  }

  // ----- What collapsing means -----

  /** The length of the longest whitespace prefix. */
  function Gap(s: string): (n: nat)
    ensures n <= |s| && (n < |s| ==> !IsWhitespace(s[n]))
  {
    if s == "" || !IsWhitespace(s[0]) then 0 else 1 + Gap(s[1..])
  }

  /** The length of the longest prefix without whitespace. */
  function Word(s: string): (n: nat)
    ensures n <= |s| && (n < |s| ==> IsWhitespace(s[n]))
  {
    if s == "" || IsWhitespace(s[0]) then 0 else 1 + Word(s[1..])
  }

  function Separator(gap: string, trimBreaks: bool): string {
    if trimBreaks && exists c | c in gap :: IsLineBreak(c) then "" else " "
  }

  /** The maximal runs without whitespace, joined by one space each, or by nothing
      where the gap has a line break and those are to be trimmed. */
  function Collapsed(s: string, trimBreaks: bool): string
    decreases |s|, 0
  {
    var t := s[Gap(s)..];
    if t == "" then "" else t[..Word(t)] + AfterWord(t[Word(t)..], trimBreaks)
  }

  /** What follows a word, where `s` is the text after it. */
  function AfterWord(s: string, trimBreaks: bool): string
    decreases |s|, 1
  {
    var g := Gap(s);
    if g == |s| then "" else Separator(s[..g], trimBreaks) + Collapsed(s[g..], trimBreaks)
  }

  /** What becomes of the rest of a text that stands inside a word. */
  function InWord(s: string, trimBreaks: bool): string {
    s[..Word(s)] + AfterWord(s[Word(s)..], trimBreaks)
  }

  lemma CollapsedStep(s: string, trimBreaks: bool)
    requires s != ""
    ensures Collapsed(s, trimBreaks) ==
            if IsWhitespace(s[0]) then Collapsed(s[1..], trimBreaks) else [s[0]] + InWord(s[1..], trimBreaks)
  {
    if IsWhitespace(s[0]) {
      assert s[Gap(s)..] == s[1..][Gap(s[1..])..];
    } else {
      InWordStep(s, trimBreaks);
      assert s[0..] == s;
    }
  }

  lemma InWordStep(s: string, trimBreaks: bool)
    requires s != ""
    ensures InWord(s, trimBreaks) ==
            if IsWhitespace(s[0]) then AfterWord(s, trimBreaks) else [s[0]] + InWord(s[1..], trimBreaks)
  {
    hide AfterWord, Collapsed;
    if IsWhitespace(s[0]) {
      assert s[..Word(s)] == "" && s[Word(s)..] == s;
    } else {
      var rest := s[1..];
      var w := Word(rest);
      assert s[..w + 1] == [s[0]] + rest[..w] && s[w + 1..] == rest[w..];
      var after := AfterWord(rest[w..], trimBreaks);
      Associative([s[0]], rest[..w], after);
    }
  }

  lemma AfterWordStep(s: string, trimBreaks: bool)
    requires s != ""
    ensures AfterWord(s, trimBreaks) ==
            if !IsWhitespace(s[0]) then " " + Collapsed(s, trimBreaks)
            else if trimBreaks && IsLineBreak(s[0]) then Collapsed(s[1..], trimBreaks)
            else AfterWord(s[1..], trimBreaks)
  {
    assert Separator("", trimBreaks) == " ";
    hide Collapsed, Separator;
    var (g, rest) := (Gap(s), s[1..]);
    if g == 0 {
      assert s[..0] == "" && s[0..] == s;
    } else {
      assert s[..g] == [s[0]] + rest[..g - 1] && s[g..] == rest[g - 1..];
      SeparatorStep(s[0], rest[..g - 1], trimBreaks);
      SkipGap(rest, trimBreaks);
    }
  }

  lemma SeparatorStep(c: char, gap: string, trimBreaks: bool)
    ensures Separator([c] + gap, trimBreaks) ==
            if trimBreaks && IsLineBreak(c) then "" else Separator(gap, trimBreaks)
  {
    assert forall d :: d in [c] + gap <==> d == c || d in gap;
  }

  lemma SkipGap(s: string, trimBreaks: bool)
    ensures Collapsed(s, trimBreaks) == Collapsed(s[Gap(s)..], trimBreaks)
    ensures Gap(s) == |s| ==> Collapsed(s, trimBreaks) == ""
  {
    var t := s[Gap(s)..];
    assert Gap(t) == 0 && t[0..] == t;
  }

  /** What the finished output will be, from the flags and the text still to come:
      in a gap that may still be kept, the last character written is its space. */
  function Expected(out: string, inWhitespace: bool, alreadyTrimmed: bool, rest: string, trimBreaks: bool): string
    requires inWhitespace && !alreadyTrimmed ==> out != ""
  {
    if !inWhitespace then out + InWord(rest, trimBreaks)
    else if alreadyTrimmed then out + Collapsed(rest, trimBreaks)
    else out[..|out| - 1] + AfterWord(rest, trimBreaks)
  }

  /** A character outside whitespace is copied. */
  lemma ExpectedCopy(out: string, inWhitespace: bool, alreadyTrimmed: bool, rest: string, trimBreaks: bool)
    requires inWhitespace && !alreadyTrimmed ==> out != "" && out[|out| - 1] == ' '
    requires rest != "" && !IsWhitespace(rest[0])
    ensures Expected(out, inWhitespace, alreadyTrimmed, rest, trimBreaks) ==
            Expected(out + [rest[0]], false, false, rest[1..], trimBreaks)
  {
    var tail := InWord(rest[1..], trimBreaks);
    if !inWhitespace {
      InWordStep(rest, trimBreaks);
    } else {
      CollapsedStep(rest, trimBreaks);
      if !alreadyTrimmed {
        AfterWordStep(rest, trimBreaks);
        assert out == out[..|out| - 1] + " ";
        assert out + ([rest[0]] + tail) == out[..|out| - 1] + (" " + ([rest[0]] + tail));
      }
    }
    assert (out + [rest[0]]) + tail == out + ([rest[0]] + tail);
  }

  /** Whitespace ends a word with a space, which a line break may take back. */
  lemma ExpectedSpace(out: string, inWhitespace: bool, alreadyTrimmed: bool, rest: string, trimBreaks: bool)
    requires inWhitespace && !alreadyTrimmed ==> out != "" && out[|out| - 1] == ' '
    requires alreadyTrimmed ==> inWhitespace
    requires rest != "" && IsWhitespace(rest[0])
    ensures var spaced := if inWhitespace then out else out + " ";
            Expected(out, inWhitespace, alreadyTrimmed, rest, trimBreaks) ==
            if trimBreaks && !alreadyTrimmed && IsLineBreak(rest[0])
            then Expected(spaced[..|spaced| - 1], true, true, rest[1..], trimBreaks)
            else Expected(spaced, true, alreadyTrimmed, rest[1..], trimBreaks)
  {
    hide Collapsed, AfterWord, InWord;
    if alreadyTrimmed {
      CollapsedStep(rest, trimBreaks);
    } else {
      InWordStep(rest, trimBreaks);
      AfterWordStep(rest, trimBreaks);
      assert (out + " ")[..|out|] == out;
    }
  }

  lemma ExpectedAtStart(text: string, trimBreaks: bool)
    ensures Expected("", true, true, text, trimBreaks) == Collapsed(text, trimBreaks)
  {
  }

  lemma ExpectedAtEnd(out: string, inWhitespace: bool, alreadyTrimmed: bool, trimBreaks: bool)
    requires inWhitespace && !alreadyTrimmed ==> out != ""
    ensures Expected(out, inWhitespace, alreadyTrimmed, "", trimBreaks) ==
            if inWhitespace && !alreadyTrimmed then out[..|out| - 1] else out
  {
  }

  /** The state of the loop: the flags, and how many characters are written. */
  datatype Cursor = Cursor(inWhitespace: bool, alreadyTrimmed: bool, written: nat)

  /** The flags agree with each other and with the last character written. */
  predicate Consistent(c: Cursor, output: string) {
    && (c.alreadyTrimmed ==> c.inWhitespace)
    && (c.inWhitespace && !c.alreadyTrimmed ==> c.written > 0)
    && c.written <= |output|
    && (c.inWhitespace && !c.alreadyTrimmed ==> output[c.written - 1] == ' ')
  }

  function ExpectedAt(c: Cursor, output: string, rest: string, trimBreaks: bool): string
    requires Consistent(c, output)
  {
    Expected(output[..c.written], c.inWhitespace, c.alreadyTrimmed, rest, trimBreaks)
  }

  method WriteAt(result: array<char>, at: nat, c: char)
    requires at < result.Length
    modifies result
    ensures result[..at + 1] == old(result[..at]) + [c]
    ensures forall k | 0 <= k < result.Length && k != at :: result[k] == old(result[k])
  {
    result[at] := c;
  }

  /** One turn of the loop, for the character at the read position: the cursor stays
      between zero and the position behind the character, only the place at the cursor is
      written, and the finished output stays what it was going to be. */
  method CollapseChar(result: array<char>, text: string, i: nat, c: Cursor, trimBreaks: bool) returns (c': Cursor)
    requires result.Length == |text| && c.written <= i < |text|
    requires Consistent(c, result[..])
    modifies result
    ensures Consistent(c', result[..])
    ensures 0 <= c'.written <= i + 1 && c.written - 1 <= c'.written <= c.written + 1
    ensures forall k | 0 <= k < result.Length && k != c.written :: result[k] == old(result[k])
    ensures ExpectedAt(c', result[..], text[i + 1..], trimBreaks)
            == old(ExpectedAt(c, result[..], text[i..], trimBreaks))
  {
    hide Expected;
    assert text[i..][0] == text[i] && text[i..][1..] == text[i + 1..];
    if IsWhitespace(text[i]) {
      ExpectedSpace(result[..c.written], c.inWhitespace, c.alreadyTrimmed, text[i..], trimBreaks);
      c' := EndWord(result, c);
      if trimBreaks && !c.alreadyTrimmed && IsLineBreak(text[i]) {
        assert result[..c'.written - 1] == result[..c'.written][..c'.written - 1];
        c' := Cursor(true, true, c'.written - 1);
      }
    } else {
      ExpectedCopy(result[..c.written], c.inWhitespace, c.alreadyTrimmed, text[i..], trimBreaks);
      WriteAt(result, c.written, text[i]);
      c' := Cursor(false, false, c.written + 1);
    }
  }

  /** Whitespace behind a word becomes one space. */
  method EndWord(result: array<char>, c: Cursor) returns (c': Cursor)
    requires Consistent(c, result[..]) && c.written < result.Length
    modifies result
    ensures c' == Cursor(true, c.alreadyTrimmed, c.written + if c.inWhitespace then 0 else 1)
    ensures Consistent(c', result[..])
    ensures result[..c'.written] == if c.inWhitespace then old(result[..c.written]) else old(result[..c.written]) + " "
    ensures forall k | 0 <= k < result.Length && k != c.written :: result[k] == old(result[k])
  {
    c' := c;
    if !c.inWhitespace {
      WriteAt(result, c.written, ' ');
      c' := Cursor(true, c.alreadyTrimmed, c.written + 1);
      assert result[c.written] == result[..c'.written][c.written];
    }
  }

  method CollapseWhitespace(text: string, trimBreaks: bool) returns (r: string)
    ensures r == Collapsed(text, trimBreaks)
  {
    hide Expected, Collapsed;
    var result := new char[|text|](_ => '\0');
    var c := Cursor(true, true, 0);
    assert result[..0] == "" && text[0..] == text;
    ExpectedAtStart(text, trimBreaks);
    for i := 0 to |text|
      invariant c.written <= i && Consistent(c, result[..])
      invariant ExpectedAt(c, result[..], text[i..], trimBreaks) == Collapsed(text, trimBreaks)
    {
      c := CollapseChar(result, text, i, c, trimBreaks);
    }
    assert text[|text|..] == "";
    ExpectedAtEnd(result[..c.written], c.inWhitespace, c.alreadyTrimmed, trimBreaks);
    var written := c.written;
    if c.inWhitespace && !c.alreadyTrimmed {
      written := written - 1;
      assert result[..written] == result[..written + 1][..written];
    }
    r := result[..written];
  }

  lemma CollapsedB(trimBreaks: bool)
    ensures Collapsed("b", trimBreaks) == "b" && AfterWord("b", trimBreaks) == " b"
  {
    assert "b"[1..] == "" && InWord("", trimBreaks) == "";
    CollapsedStep("b", trimBreaks);
    AfterWordStep("b", trimBreaks);
  }

  /** A tab between words becomes one space. */
  lemma TabExample(trimBreaks: bool)
    ensures Collapsed("a\tb", trimBreaks) == "a b"
  {
    hide Collapsed, AfterWord, InWord;
    assert "a\tb"[1..] == "\tb" && "\tb"[1..] == "b";
    CollapsedStep("a\tb", trimBreaks);
    InWordStep("\tb", trimBreaks);
    AfterWordStep("\tb", trimBreaks);
    CollapsedB(trimBreaks);
  }

  /** A gap with a line break becomes one space, or nothing if those are to be trimmed. */
  lemma BreakExample(trimBreaks: bool)
    ensures Collapsed("a\r\nb", trimBreaks) == if trimBreaks then "ab" else "a b"
  {
    hide Collapsed, AfterWord, InWord;
    assert "a\r\nb"[1..] == "\r\nb" && "\r\nb"[1..] == "\nb" && "\nb"[1..] == "b";
    CollapsedStep("a\r\nb", trimBreaks);
    InWordStep("\r\nb", trimBreaks);
    AfterWordStep("\r\nb", trimBreaks);
    AfterWordStep("\nb", trimBreaks);
    CollapsedStep("\nb", trimBreaks);
    CollapsedB(trimBreaks);
  }

  // ----- Collapsing again changes nothing -----

  /** No whitespace at either end, and inside only single spaces. */
  predicate Normal(s: string) {
    forall i | 0 <= i < |s| && IsWhitespace(s[i]) ::
      s[i] == ' ' && 0 < i < |s| - 1 && !IsWhitespace(s[i + 1])
  }

  /** A non-empty run without whitespace. */
  predicate IsWord(w: string) {
    w != "" && forall c | c in w :: !IsWhitespace(c)
  }

  lemma {:induction false} WordIsWord(s: string)
    requires s != "" && !IsWhitespace(s[0])
    ensures IsWord(s[..Word(s)])
  {
    if |s| > 1 && !IsWhitespace(s[1]) {
      WordIsWord(s[1..]);
    }
    assert s[..Word(s)] == [s[0]] + s[1..][..Word(s[1..])];
  }

  lemma JoinIsNormal(w: string, s: string, spaced: bool)
    requires IsWord(w) && Normal(s)
    requires spaced ==> s != "" && !IsWhitespace(s[0])
    ensures Normal(w + (if spaced then " " else "") + s)
  {
    var gap := if spaced then " " else "";
    var all := w + gap + s;
    forall i | 0 <= i < |all| && IsWhitespace(all[i])
      ensures all[i] == ' ' && 0 < i < |all| - 1 && !IsWhitespace(all[i + 1])
    {
      assert forall k | 0 <= k < |w| :: all[k] == w[k] && w[k] in w;
      var j := i - |w| - |gap|;
      if j >= 0 {
        assert all[i] == s[j];
        assert all[i + 1] == s[j + 1];
      }
    }
  }

  /** The first word of a text, the separator after it and the text from the next
      word on, if there is one. */
  lemma CollapsedParts(s: string, trimBreaks: bool) returns (word: string, spaced: bool, next: string)
    requires Gap(s) < |s|
    ensures IsWord(word) && |next| < |s| && (next != "" ==> !IsWhitespace(next[0]))
    ensures Collapsed(s, trimBreaks) ==
            if next == "" then word else word + (if spaced then " " else "") + Collapsed(next, trimBreaks)
  {
    var t := s[Gap(s)..];
    WordIsWord(t);
    word := t[..Word(t)];
    var rest := t[Word(t)..];
    assert Collapsed(s, trimBreaks) == word + AfterWord(rest, trimBreaks);
    spaced, next := AfterWordParts(rest, trimBreaks);
    Associative(word, if spaced then " " else "", Collapsed(next, trimBreaks));
  }

  lemma Associative(a: string, b: string, c: string)
    ensures a + b + c == a + (b + c) && a + "" == a
  {
  }

  lemma AfterWordParts(rest: string, trimBreaks: bool) returns (spaced: bool, next: string)
    ensures |next| <= |rest| && (next != "" ==> !IsWhitespace(next[0]))
    ensures AfterWord(rest, trimBreaks) ==
            if next == "" then "" else (if spaced then " " else "") + Collapsed(next, trimBreaks)
  {
    var g := Gap(rest);
    next := rest[g..];
    spaced := Separator(rest[..g], trimBreaks) == " ";
  }

  lemma {:induction false} CollapsedIsNormal(s: string, trimBreaks: bool)
    ensures Normal(Collapsed(s, trimBreaks))
    decreases |s|
  {
    if Gap(s) < |s| {
      var word, spaced, next := CollapsedParts(s, trimBreaks);
      CollapsedIsNormal(next, trimBreaks);
      if next == "" {
        JoinIsNormal(word, "", false);
        assert word + "" + "" == word;
      } else {
        CollapsedStep(next, trimBreaks);
        JoinIsNormal(word, Collapsed(next, trimBreaks), spaced);
      }
    }
  }

  lemma {:induction false} WordOfPrefix(w: string, s: string)
    requires IsWord(w) && (s == "" || IsWhitespace(s[0]))
    ensures Word(w + s) == |w|
  {
    assert (w + s)[1..] == w[1..] + s;
    if |w| > 1 {
      WordOfPrefix(w[1..], s);
    } else {
      assert w[1..] + s == s;
    }
  }

  /** What may follow a character of a normal text. */
  predicate NormalTail(s: string) {
    forall i | 0 <= i < |s| && IsWhitespace(s[i]) ::
      s[i] == ' ' && i < |s| - 1 && !IsWhitespace(s[i + 1])
  }

  lemma NormalTailShrinks(s: string, n: nat)
    requires n <= |s| && NormalTail(s)
    ensures NormalTail(s[n..])
  {
    assert forall i | 0 <= i < |s| - n :: s[n..][i] == s[i + n];
  }

  /** A single space and the character after it are kept. */
  lemma SpaceIsKept(s: string, trimBreaks: bool)
    requires |s| > 1 && s[0] == ' ' && !IsWhitespace(s[1])
    ensures InWord(s, trimBreaks) == s[..2] + InWord(s[2..], trimBreaks)
  {
    hide InWord, AfterWord, Collapsed;
    var rest := s[1..];
    assert rest[1..] == s[2..];
    InWordStep(s, trimBreaks);
    AfterWordStep(s, trimBreaks);
    AfterWordStep(rest, trimBreaks);
    CollapsedStep(rest, trimBreaks);
    assert s[..2] == " " + [s[1]];
    Associative(" ", [s[1]], InWord(s[2..], trimBreaks));
  }

  lemma {:induction false} NormalTailIsFixed(s: string, trimBreaks: bool)
    requires NormalTail(s)
    ensures InWord(s, trimBreaks) == s
    decreases |s|
  {
    hide InWord, NormalTail, Word, Gap, AfterWord, Collapsed, IsWhitespace;
    if s == "" {
      NothingInWord(trimBreaks);
    } else {
      var n := 1;
      if IsWhitespace(s[0]) {
        n := 2;
        FirstSpace(s);
        SpaceIsKept(s, trimBreaks);
      } else {
        InWordStep(s, trimBreaks);
      }
      NormalTailShrinks(s, n);
      NormalTailIsFixed(s[n..], trimBreaks);
    }
  }

  lemma NothingInWord(trimBreaks: bool)
    ensures InWord("", trimBreaks) == ""
  {
  }

  lemma FirstSpace(s: string)
    requires NormalTail(s) && s != "" && IsWhitespace(s[0])
    ensures |s| > 1 && s[0] == ' ' && !IsWhitespace(s[1])
  {
  }

  lemma NormalIsFixed(s: string, trimBreaks: bool)
    requires Normal(s)
    ensures Collapsed(s, trimBreaks) == s
  {
    if s != "" {
      hide InWord, Collapsed;
      assert forall i | 0 <= i < |s| - 1 :: s[1..][i] == s[i + 1];
      NormalTailIsFixed(s[1..], trimBreaks);
      CollapsedStep(s, trimBreaks);
    }
  }

  lemma CollapsingTwiceIsOnce(s: string, first: bool, second: bool)
    ensures Collapsed(Collapsed(s, first), second) == Collapsed(s, first)
  {
    CollapsedIsNormal(s, first);
    NormalIsFixed(Collapsed(s, first), second);
  }
}
