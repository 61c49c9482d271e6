/**
 The word functions of MD5: the ones the program uses and the ones section 3.4 of
 RFC 1321 defines.
 */
module Md5Words {

  type Word = bv32

  // ----- The program's functions -----

  function F1(x: Word, y: Word, z: Word): Word { z ^ (x & (y ^ z)) }
  function F2(x: Word, y: Word, z: Word): Word { F1(z, x, y) }
  function F3(x: Word, y: Word, z: Word): Word { x ^ y ^ z }
  function F4(x: Word, y: Word, z: Word): Word { y ^ (x | !z) }

  function RotateLeft(w: Word, s: nat): Word
    requires s <= 32
  {
    (w << s) | (w >> (32 - s))
  }

  /** The central step: `f` is the value of the round's function, `data + t` the
      message word with the constant of the step. */
  function Md5Step(f: Word, w: Word, x: Word, data: Word, t: Word, s: nat): Word
    requires s <= 32
  {
    RotateLeft(w + (f + (data + t)), s) + x
  }

  // ----- The definition -----

  /** The auxiliary functions of the four rounds. */
  function DefinedF(x: Word, y: Word, z: Word): Word { (x & y) | (!x & z) }
  function DefinedG(x: Word, y: Word, z: Word): Word { (x & z) | (y & !z) }
  function DefinedH(x: Word, y: Word, z: Word): Word { x ^ y ^ z }
  function DefinedI(x: Word, y: Word, z: Word): Word { y ^ (x | !z) }

  function Auxiliary(round: nat, x: Word, y: Word, z: Word): Word {
    if round == 0 then DefinedF(x, y, z) else if round == 1 then DefinedG(x, y, z)
    else if round == 2 then DefinedH(x, y, z) else DefinedI(x, y, z)
  }

  // ----- They agree -----

  lemma SelectByXor(x: Word, y: Word, z: Word)
    ensures z ^ (x & (y ^ z)) == (x & y) | (!x & z)
  {
  }

  lemma SelectByXorMirrored(x: Word, y: Word, z: Word)
    ensures y ^ (z & (x ^ y)) == (x & z) | (y & !z)
  {
  }

  lemma F1Agrees(x: Word, y: Word, z: Word)
    ensures F1(x, y, z) == DefinedF(x, y, z)
  {
    SelectByXor(x, y, z);
  }

  lemma F2Agrees(x: Word, y: Word, z: Word)
    ensures F2(x, y, z) == DefinedG(x, y, z)
  {
    SelectByXorMirrored(x, y, z);
  }

  lemma F3F4Agree(x: Word, y: Word, z: Word)
    ensures F3(x, y, z) == DefinedH(x, y, z) && F4(x, y, z) == DefinedI(x, y, z)
  {
  }

  function F(round: nat, x: Word, y: Word, z: Word): Word {
    if round == 0 then F1(x, y, z) else if round == 1 then F2(x, y, z)
    else if round == 2 then F3(x, y, z) else F4(x, y, z)
  }

  /** The optimised functions of the program are the defined ones. */
  lemma AuxiliaryAgrees(round: nat, x: Word, y: Word, z: Word)
    ensures F(round, x, y, z) == Auxiliary(round, x, y, z)
  {
    hide F1, F2, F3, F4, DefinedF, DefinedG, DefinedH, DefinedI;
    F1Agrees(x, y, z);
    F2Agrees(x, y, z);
    F3F4Agree(x, y, z);
  }

  /** Step `[abcd k s i]` of the definition, for given word, constant and shift. */
  function DefinedOperation(aux: Word, a: Word, b: Word, data: Word, t: Word, s: nat): Word
    requires s <= 32
  {
    b + RotateLeft(a + aux + data + t, s)
  }

  lemma OperationAgrees(aux: Word, a: Word, b: Word, data: Word, t: Word, s: nat)
    requires s <= 32
    ensures Md5Step(aux, a, b, data, t, s) == DefinedOperation(aux, a, b, data, t, s)
  {
    hide RotateLeft;
    assert a + aux + data + t == a + (aux + (data + t));
  }
}

/**
 The compression function of MD5: the unrolled program and the step-by-step
 definition of section 3.4 of RFC 1321.
 */
module Md5Transform {

  import opened Md5Words

  /** The four words of the chaining state. */
  datatype Quad = Quad(a: Word, b: Word, c: Word, d: Word)

  // ----- The definition -----

  /** Which message word step `i` uses. */
  function WordIndex(i: nat): (k: nat)
    ensures k < 16
  {
    if i < 16 then i % 16
    else if i < 32 then (1 + 5 * i) % 16
    else if i < 48 then (5 + 3 * i) % 16
    else (7 * i) % 16
  }

  const SHIFTS: seq<seq<nat>> := [[7, 12, 17, 22], [5, 9, 14, 20], [4, 11, 16, 23], [6, 10, 15, 21]]

  function Shift(i: nat): (s: nat)
    requires i < 64
    ensures s <= 32
  {
    SHIFTS[i / 16][i % 4]
  }

  /** The sine table, round by round: the integer part of 2^32 times abs(sin(i + 1)). */
  function Sine1(i: nat): Word {
    match i
    case 0 => 0xd76aa478 case 1 => 0xe8c7b756 case 2 => 0x242070db case 3 => 0xc1bdceee
    case 4 => 0xf57c0faf case 5 => 0x4787c62a case 6 => 0xa8304613 case 7 => 0xfd469501
    case 8 => 0x698098d8 case 9 => 0x8b44f7af case 10 => 0xffff5bb1 case 11 => 0x895cd7be
    case 12 => 0x6b901122 case 13 => 0xfd987193 case 14 => 0xa679438e case _ => 0x49b40821
  }

  function Sine2(i: nat): Word {
    match i
    case 0 => 0xf61e2562 case 1 => 0xc040b340 case 2 => 0x265e5a51 case 3 => 0xe9b6c7aa
    case 4 => 0xd62f105d case 5 => 0x02441453 case 6 => 0xd8a1e681 case 7 => 0xe7d3fbc8
    case 8 => 0x21e1cde6 case 9 => 0xc33707d6 case 10 => 0xf4d50d87 case 11 => 0x455a14ed
    case 12 => 0xa9e3e905 case 13 => 0xfcefa3f8 case 14 => 0x676f02d9 case _ => 0x8d2a4c8a
  }

  function Sine3(i: nat): Word {
    match i
    case 0 => 0xfffa3942 case 1 => 0x8771f681 case 2 => 0x6d9d6122 case 3 => 0xfde5380c
    case 4 => 0xa4beea44 case 5 => 0x4bdecfa9 case 6 => 0xf6bb4b60 case 7 => 0xbebfbc70
    case 8 => 0x289b7ec6 case 9 => 0xeaa127fa case 10 => 0xd4ef3085 case 11 => 0x04881d05
    case 12 => 0xd9d4d039 case 13 => 0xe6db99e5 case 14 => 0x1fa27cf8 case _ => 0xc4ac5665
  }

  function Sine4(i: nat): Word {
    match i
    case 0 => 0xf4292244 case 1 => 0x432aff97 case 2 => 0xab9423a7 case 3 => 0xfc93a039
    case 4 => 0x655b59c3 case 5 => 0x8f0ccc92 case 6 => 0xffeff47d case 7 => 0x85845dd1
    case 8 => 0x6fa87e4f case 9 => 0xfe2ce6e0 case 10 => 0xa3014314 case 11 => 0x4e0811a1
    case 12 => 0xf7537e82 case 13 => 0xbd3af235 case 14 => 0x2ad7d2bb case _ => 0xeb86d391
  }

  function Sine(i: nat): Word {
    if i < 16 then Sine1(i) else if i < 32 then Sine2(i - 16)
    else if i < 48 then Sine3(i - 32) else Sine4(i - 48)
  }

  /** Step `i`: the word in front is renewed and the four words move on by one. */
  function DefinedStep(i: nat, q: Quad, block: seq<Word>): Quad
    requires i < 64 && |block| == 16
  {
    var aux := Auxiliary(i / 16, q.b, q.c, q.d);
    Quad(q.d, DefinedOperation(aux, q.a, q.b, block[WordIndex(i)], Sine(i), Shift(i)), q.b, q.c)
  }

  function DefinedSteps(n: nat, q: Quad, block: seq<Word>): Quad
    requires n <= 64 && |block| == 16
  {
    if n == 0 then q else DefinedStep(n - 1, DefinedSteps(n - 1, q, block), block)
  }

  function Plus(p: Quad, q: Quad): Quad {
    Quad(p.a + q.a, p.b + q.b, p.c + q.c, p.d + q.d)
  }

  /** The new chaining state after one block of sixteen words. */
  function Compressed(q: Quad, block: seq<Word>): Quad
    requires |block| == 16
  {
    Plus(q, DefinedSteps(64, q, block))
  }

  // ----- The program computes the definition -----

  lemma StepAgrees(i: nat, q: Quad, block: seq<Word>)
    requires i < 64 && |block| == 16
    ensures DefinedStep(i, q, block) ==
            Quad(q.d,
                 Md5Step(F(i / 16, q.b, q.c, q.d), q.a, q.b, block[WordIndex(i)], Sine(i), Shift(i)),
                 q.b, q.c)
  {
    hide F, Auxiliary, Sine, Shift, WordIndex, Md5Step, DefinedOperation;
    AuxiliaryAgrees(i / 16, q.b, q.c, q.d);
    OperationAgrees(Auxiliary(i / 16, q.b, q.c, q.d), q.a, q.b, block[WordIndex(i)], Sine(i), Shift(i));
  }

  function Round1(q: Quad, block: seq<Word>): Quad
    requires |block| == 16
  {
    var Quad(a, b, c, d) := q;
    var a := Md5Step(F1(b, c, d), a, b, block[0], 0xd76aa478, 7);
    var d := Md5Step(F1(a, b, c), d, a, block[1], 0xe8c7b756, 12);
    var c := Md5Step(F1(d, a, b), c, d, block[2], 0x242070db, 17);
    var b := Md5Step(F1(c, d, a), b, c, block[3], 0xc1bdceee, 22);
    var a := Md5Step(F1(b, c, d), a, b, block[4], 0xf57c0faf, 7);
    var d := Md5Step(F1(a, b, c), d, a, block[5], 0x4787c62a, 12);
    var c := Md5Step(F1(d, a, b), c, d, block[6], 0xa8304613, 17);
    var b := Md5Step(F1(c, d, a), b, c, block[7], 0xfd469501, 22);
    var a := Md5Step(F1(b, c, d), a, b, block[8], 0x698098d8, 7);
    var d := Md5Step(F1(a, b, c), d, a, block[9], 0x8b44f7af, 12);
    var c := Md5Step(F1(d, a, b), c, d, block[10], 0xffff5bb1, 17);
    var b := Md5Step(F1(c, d, a), b, c, block[11], 0x895cd7be, 22);
    var a := Md5Step(F1(b, c, d), a, b, block[12], 0x6b901122, 7);
    var d := Md5Step(F1(a, b, c), d, a, block[13], 0xfd987193, 12);
    var c := Md5Step(F1(d, a, b), c, d, block[14], 0xa679438e, 17);
    var b := Md5Step(F1(c, d, a), b, c, block[15], 0x49b40821, 22);
    Quad(a, b, c, d)
  }

  function Round2(q: Quad, block: seq<Word>): Quad
    requires |block| == 16
  {
    var Quad(a, b, c, d) := q;
    var a := Md5Step(F2(b, c, d), a, b, block[1], 0xf61e2562, 5);
    var d := Md5Step(F2(a, b, c), d, a, block[6], 0xc040b340, 9);
    var c := Md5Step(F2(d, a, b), c, d, block[11], 0x265e5a51, 14);
    var b := Md5Step(F2(c, d, a), b, c, block[0], 0xe9b6c7aa, 20);
    var a := Md5Step(F2(b, c, d), a, b, block[5], 0xd62f105d, 5);
    var d := Md5Step(F2(a, b, c), d, a, block[10], 0x02441453, 9);
    var c := Md5Step(F2(d, a, b), c, d, block[15], 0xd8a1e681, 14);
    var b := Md5Step(F2(c, d, a), b, c, block[4], 0xe7d3fbc8, 20);
    var a := Md5Step(F2(b, c, d), a, b, block[9], 0x21e1cde6, 5);
    var d := Md5Step(F2(a, b, c), d, a, block[14], 0xc33707d6, 9);
    var c := Md5Step(F2(d, a, b), c, d, block[3], 0xf4d50d87, 14);
    var b := Md5Step(F2(c, d, a), b, c, block[8], 0x455a14ed, 20);
    var a := Md5Step(F2(b, c, d), a, b, block[13], 0xa9e3e905, 5);
    var d := Md5Step(F2(a, b, c), d, a, block[2], 0xfcefa3f8, 9);
    var c := Md5Step(F2(d, a, b), c, d, block[7], 0x676f02d9, 14);
    var b := Md5Step(F2(c, d, a), b, c, block[12], 0x8d2a4c8a, 20);
    Quad(a, b, c, d)
  }

  function Round3(q: Quad, block: seq<Word>): Quad
    requires |block| == 16
  {
    var Quad(a, b, c, d) := q;
    var a := Md5Step(F3(b, c, d), a, b, block[5], 0xfffa3942, 4);
    var d := Md5Step(F3(a, b, c), d, a, block[8], 0x8771f681, 11);
    var c := Md5Step(F3(d, a, b), c, d, block[11], 0x6d9d6122, 16);
    var b := Md5Step(F3(c, d, a), b, c, block[14], 0xfde5380c, 23);
    var a := Md5Step(F3(b, c, d), a, b, block[1], 0xa4beea44, 4);
    var d := Md5Step(F3(a, b, c), d, a, block[4], 0x4bdecfa9, 11);
    var c := Md5Step(F3(d, a, b), c, d, block[7], 0xf6bb4b60, 16);
    var b := Md5Step(F3(c, d, a), b, c, block[10], 0xbebfbc70, 23);
    var a := Md5Step(F3(b, c, d), a, b, block[13], 0x289b7ec6, 4);
    var d := Md5Step(F3(a, b, c), d, a, block[0], 0xeaa127fa, 11);
    var c := Md5Step(F3(d, a, b), c, d, block[3], 0xd4ef3085, 16);
    var b := Md5Step(F3(c, d, a), b, c, block[6], 0x04881d05, 23);
    var a := Md5Step(F3(b, c, d), a, b, block[9], 0xd9d4d039, 4);
    var d := Md5Step(F3(a, b, c), d, a, block[12], 0xe6db99e5, 11);
    var c := Md5Step(F3(d, a, b), c, d, block[15], 0x1fa27cf8, 16);
    var b := Md5Step(F3(c, d, a), b, c, block[2], 0xc4ac5665, 23);
    Quad(a, b, c, d)
  }

  function Round4(q: Quad, block: seq<Word>): Quad
    requires |block| == 16
  {
    var Quad(a, b, c, d) := q;
    var a := Md5Step(F4(b, c, d), a, b, block[0], 0xf4292244, 6);
    var d := Md5Step(F4(a, b, c), d, a, block[7], 0x432aff97, 10);
    var c := Md5Step(F4(d, a, b), c, d, block[14], 0xab9423a7, 15);
    var b := Md5Step(F4(c, d, a), b, c, block[5], 0xfc93a039, 21);
    var a := Md5Step(F4(b, c, d), a, b, block[12], 0x655b59c3, 6);
    var d := Md5Step(F4(a, b, c), d, a, block[3], 0x8f0ccc92, 10);
    var c := Md5Step(F4(d, a, b), c, d, block[10], 0xffeff47d, 15);
    var b := Md5Step(F4(c, d, a), b, c, block[1], 0x85845dd1, 21);
    var a := Md5Step(F4(b, c, d), a, b, block[8], 0x6fa87e4f, 6);
    var d := Md5Step(F4(a, b, c), d, a, block[15], 0xfe2ce6e0, 10);
    var c := Md5Step(F4(d, a, b), c, d, block[6], 0xa3014314, 15);
    var b := Md5Step(F4(c, d, a), b, c, block[13], 0x4e0811a1, 21);
    var a := Md5Step(F4(b, c, d), a, b, block[4], 0xf7537e82, 6);
    var d := Md5Step(F4(a, b, c), d, a, block[11], 0xbd3af235, 10);
    var c := Md5Step(F4(d, a, b), c, d, block[2], 0x2ad7d2bb, 15);
    var b := Md5Step(F4(c, d, a), b, c, block[9], 0xeb86d391, 21);
    Quad(a, b, c, d)
  }

  /** Four defined steps bring the words back to their places. */
  function FourSteps(i: nat, q: Quad, block: seq<Word>): Quad
    requires i <= 60 && |block| == 16
  {
    var r := i / 16;
    var a := Md5Step(F(r, q.b, q.c, q.d), q.a, q.b, block[WordIndex(i)], Sine(i), Shift(i));
    var d := Md5Step(F(r, a, q.b, q.c), q.d, a, block[WordIndex(i + 1)], Sine(i + 1), Shift(i + 1));
    var c := Md5Step(F(r, d, a, q.b), q.c, d, block[WordIndex(i + 2)], Sine(i + 2), Shift(i + 2));
    var b := Md5Step(F(r, c, d, a), q.b, c, block[WordIndex(i + 3)], Sine(i + 3), Shift(i + 3));
    Quad(a, b, c, d)
  }

  lemma FourStepsAgree(i: nat, q: Quad, block: seq<Word>)
    requires i <= 60 && i % 4 == 0 && |block| == 16
    ensures DefinedSteps(i + 4, q, block) == FourSteps(i, DefinedSteps(i, q, block), block)
  {
    hide DefinedStep, F, Auxiliary, Sine, Shift, WordIndex, Md5Step;
    StepAgrees(i, DefinedSteps(i, q, block), block);
    StepAgrees(i + 1, DefinedSteps(i + 1, q, block), block);
    StepAgrees(i + 2, DefinedSteps(i + 2, q, block), block);
    StepAgrees(i + 3, DefinedSteps(i + 3, q, block), block);
    assert (i + 1) / 16 == (i + 2) / 16 == (i + 3) / 16 == i / 16;
  }

  lemma Round1Sines()
    ensures Sine(0) == 0xd76aa478 && Sine(1) == 0xe8c7b756 && Sine(2) == 0x242070db && Sine(3) == 0xc1bdceee
    ensures Sine(4) == 0xf57c0faf && Sine(5) == 0x4787c62a && Sine(6) == 0xa8304613 && Sine(7) == 0xfd469501
    ensures Sine(8) == 0x698098d8 && Sine(9) == 0x8b44f7af && Sine(10) == 0xffff5bb1 && Sine(11) == 0x895cd7be
    ensures Sine(12) == 0x6b901122 && Sine(13) == 0xfd987193 && Sine(14) == 0xa679438e && Sine(15) == 0x49b40821
  {
  }

  lemma Round1Places()
    ensures Shift(0) == 7 && Shift(1) == 12 && Shift(2) == 17 && Shift(3) == 22
    ensures Shift(4) == 7 && Shift(5) == 12 && Shift(6) == 17 && Shift(7) == 22
    ensures Shift(8) == 7 && Shift(9) == 12 && Shift(10) == 17 && Shift(11) == 22
    ensures Shift(12) == 7 && Shift(13) == 12 && Shift(14) == 17 && Shift(15) == 22
    ensures WordIndex(0) == 0 && WordIndex(1) == 1 && WordIndex(2) == 2 && WordIndex(3) == 3
    ensures WordIndex(4) == 4 && WordIndex(5) == 5 && WordIndex(6) == 6 && WordIndex(7) == 7
    ensures WordIndex(8) == 8 && WordIndex(9) == 9 && WordIndex(10) == 10 && WordIndex(11) == 11
    ensures WordIndex(12) == 12 && WordIndex(13) == 13 && WordIndex(14) == 14 && WordIndex(15) == 15
  {
  }

  lemma Round1Agrees(q: Quad, block: seq<Word>)
    requires |block| == 16
    ensures Round1(DefinedSteps(0, q, block), block) == DefinedSteps(16, q, block)
  {
    hide DefinedSteps, Sine, Shift, WordIndex, Md5Step, F1, F2, F3, F4;
    Round1Sines();
    Round1Places();
    FourStepsAgree(0, q, block);
    FourStepsAgree(4, q, block);
    FourStepsAgree(8, q, block);
    FourStepsAgree(12, q, block);
  }

  lemma Round2Sines()
    ensures Sine(16) == 0xf61e2562 && Sine(17) == 0xc040b340 && Sine(18) == 0x265e5a51 && Sine(19) == 0xe9b6c7aa
    ensures Sine(20) == 0xd62f105d && Sine(21) == 0x02441453 && Sine(22) == 0xd8a1e681 && Sine(23) == 0xe7d3fbc8
    ensures Sine(24) == 0x21e1cde6 && Sine(25) == 0xc33707d6 && Sine(26) == 0xf4d50d87 && Sine(27) == 0x455a14ed
    ensures Sine(28) == 0xa9e3e905 && Sine(29) == 0xfcefa3f8 && Sine(30) == 0x676f02d9 && Sine(31) == 0x8d2a4c8a
  {
  }

  lemma Round2Places()
    ensures Shift(16) == 5 && Shift(17) == 9 && Shift(18) == 14 && Shift(19) == 20
    ensures Shift(20) == 5 && Shift(21) == 9 && Shift(22) == 14 && Shift(23) == 20
    ensures Shift(24) == 5 && Shift(25) == 9 && Shift(26) == 14 && Shift(27) == 20
    ensures Shift(28) == 5 && Shift(29) == 9 && Shift(30) == 14 && Shift(31) == 20
    ensures WordIndex(16) == 1 && WordIndex(17) == 6 && WordIndex(18) == 11 && WordIndex(19) == 0
    ensures WordIndex(20) == 5 && WordIndex(21) == 10 && WordIndex(22) == 15 && WordIndex(23) == 4
    ensures WordIndex(24) == 9 && WordIndex(25) == 14 && WordIndex(26) == 3 && WordIndex(27) == 8
    ensures WordIndex(28) == 13 && WordIndex(29) == 2 && WordIndex(30) == 7 && WordIndex(31) == 12
  {
  }

  lemma Round2Agrees(q: Quad, block: seq<Word>)
    requires |block| == 16
    ensures Round2(DefinedSteps(16, q, block), block) == DefinedSteps(32, q, block)
  {
    hide DefinedSteps, Sine, Shift, WordIndex, Md5Step, F1, F2, F3, F4;
    Round2Sines();
    Round2Places();
    FourStepsAgree(16, q, block);
    FourStepsAgree(20, q, block);
    FourStepsAgree(24, q, block);
    FourStepsAgree(28, q, block);
  }

  lemma Round3Sines()
    ensures Sine(32) == 0xfffa3942 && Sine(33) == 0x8771f681 && Sine(34) == 0x6d9d6122 && Sine(35) == 0xfde5380c
    ensures Sine(36) == 0xa4beea44 && Sine(37) == 0x4bdecfa9 && Sine(38) == 0xf6bb4b60 && Sine(39) == 0xbebfbc70
    ensures Sine(40) == 0x289b7ec6 && Sine(41) == 0xeaa127fa && Sine(42) == 0xd4ef3085 && Sine(43) == 0x04881d05
    ensures Sine(44) == 0xd9d4d039 && Sine(45) == 0xe6db99e5 && Sine(46) == 0x1fa27cf8 && Sine(47) == 0xc4ac5665
  {
  }

  lemma Round3Places()
    ensures Shift(32) == 4 && Shift(33) == 11 && Shift(34) == 16 && Shift(35) == 23
    ensures Shift(36) == 4 && Shift(37) == 11 && Shift(38) == 16 && Shift(39) == 23
    ensures Shift(40) == 4 && Shift(41) == 11 && Shift(42) == 16 && Shift(43) == 23
    ensures Shift(44) == 4 && Shift(45) == 11 && Shift(46) == 16 && Shift(47) == 23
    ensures WordIndex(32) == 5 && WordIndex(33) == 8 && WordIndex(34) == 11 && WordIndex(35) == 14
    ensures WordIndex(36) == 1 && WordIndex(37) == 4 && WordIndex(38) == 7 && WordIndex(39) == 10
    ensures WordIndex(40) == 13 && WordIndex(41) == 0 && WordIndex(42) == 3 && WordIndex(43) == 6
    ensures WordIndex(44) == 9 && WordIndex(45) == 12 && WordIndex(46) == 15 && WordIndex(47) == 2
  {
  }

  lemma Round3Agrees(q: Quad, block: seq<Word>)
    requires |block| == 16
    ensures Round3(DefinedSteps(32, q, block), block) == DefinedSteps(48, q, block)
  {
    hide DefinedSteps, Sine, Shift, WordIndex, Md5Step, F1, F2, F3, F4;
    Round3Sines();
    Round3Places();
    FourStepsAgree(32, q, block);
    FourStepsAgree(36, q, block);
    FourStepsAgree(40, q, block);
    FourStepsAgree(44, q, block);
  }

  lemma Round4Sines()
    ensures Sine(48) == 0xf4292244 && Sine(49) == 0x432aff97 && Sine(50) == 0xab9423a7 && Sine(51) == 0xfc93a039
    ensures Sine(52) == 0x655b59c3 && Sine(53) == 0x8f0ccc92 && Sine(54) == 0xffeff47d && Sine(55) == 0x85845dd1
    ensures Sine(56) == 0x6fa87e4f && Sine(57) == 0xfe2ce6e0 && Sine(58) == 0xa3014314 && Sine(59) == 0x4e0811a1
    ensures Sine(60) == 0xf7537e82 && Sine(61) == 0xbd3af235 && Sine(62) == 0x2ad7d2bb && Sine(63) == 0xeb86d391
  {
  }

  lemma Round4Places()
    ensures Shift(48) == 6 && Shift(49) == 10 && Shift(50) == 15 && Shift(51) == 21
    ensures Shift(52) == 6 && Shift(53) == 10 && Shift(54) == 15 && Shift(55) == 21
    ensures Shift(56) == 6 && Shift(57) == 10 && Shift(58) == 15 && Shift(59) == 21
    ensures Shift(60) == 6 && Shift(61) == 10 && Shift(62) == 15 && Shift(63) == 21
    ensures WordIndex(48) == 0 && WordIndex(49) == 7 && WordIndex(50) == 14 && WordIndex(51) == 5
    ensures WordIndex(52) == 12 && WordIndex(53) == 3 && WordIndex(54) == 10 && WordIndex(55) == 1
    ensures WordIndex(56) == 8 && WordIndex(57) == 15 && WordIndex(58) == 6 && WordIndex(59) == 13
    ensures WordIndex(60) == 4 && WordIndex(61) == 11 && WordIndex(62) == 2 && WordIndex(63) == 9
  {
  }

  lemma Round4Agrees(q: Quad, block: seq<Word>)
    requires |block| == 16
    ensures Round4(DefinedSteps(48, q, block), block) == DefinedSteps(64, q, block)
  {
    hide DefinedSteps, Sine, Shift, WordIndex, Md5Step, F1, F2, F3, F4;
    Round4Sines();
    Round4Places();
    FourStepsAgree(48, q, block);
    FourStepsAgree(52, q, block);
    FourStepsAgree(56, q, block);
    FourStepsAgree(60, q, block);
  }

  /** The unrolled program: four rounds, then the old state is added. */
  function Transform(q: Quad, block: seq<Word>): Quad
    requires |block| == 16
  {
    Plus(q, Round4(Round3(Round2(Round1(q, block), block), block), block))
  }

  lemma TransformAgrees(q: Quad, block: seq<Word>)
    requires |block| == 16
    ensures Transform(q, block) == Compressed(q, block)
  {
    hide Round1, Round2, Round3, Round4, DefinedStep, Plus;
    Round1Agrees(q, block);
    Round2Agrees(q, block);
    Round3Agrees(q, block);
    Round4Agrees(q, block);
    StartAgrees(q, block);
  }

  lemma StartAgrees(q: Quad, block: seq<Word>)
    requires |block| == 16
    ensures DefinedSteps(0, q, block) == q
  {
  }
}
