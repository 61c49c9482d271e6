/**
 Two digests of the test suite in section A.5 of RFC 1321, computed through: they fix
 the initial words, the constants, the padding, the length and the order of bytes.
 */
module Md5Vectors {
  import opened Md5Words
  import opened Md5Transform
  import opened Md5

  /** The initial words as the bytes of section 3.3, low-order byte first. */
  lemma InitialBytes()
    ensures BytesOf(INITIAL.a) == [0x01, 0x23, 0x45, 0x67] && BytesOf(INITIAL.b) == [0x89, 0xab, 0xcd, 0xef]
    ensures BytesOf(INITIAL.c) == [0xfe, 0xdc, 0xba, 0x98] && BytesOf(INITIAL.d) == [0x76, 0x54, 0x32, 0x10]
    ensures QuadBytes(INITIAL) == [0x01, 0x23, 0x45, 0x67] + [0x89, 0xab, 0xcd, 0xef]
                                  + [0xfe, 0xdc, 0xba, 0x98] + [0x76, 0x54, 0x32, 0x10]
  {
  }

  lemma NoByte(n: nat, k: nat)
    requires n < 0x100 && 0 < k < 4
    ensures ByteAt(n, k) == 0
  {
  }

  lemma NumberOf0()
    ensures NumberBytes(0) == [0, 0, 0, 0]
  {
    NoByte(0, 1);
    NoByte(0, 2);
    NoByte(0, 3);
    assert ByteAt(0, 0) == 0;
    hide ByteAt;
  }

  lemma NumberOf24()
    ensures NumberBytes(24) == [0x18, 0, 0, 0]
  {
    NoByte(24, 1);
    NoByte(24, 2);
    NoByte(24, 3);
    assert ByteAt(24, 0) == 0x18;
    hide ByteAt;
  }

  // ----- The message "" -----

  const EMPTY: seq<Word> := [0x80, 0x0, 0x0, 0x0, 0x0, 0x0, 0x0, 0x0, 0x0, 0x0, 0x0, 0x0, 0x0, 0x0, 0x0, 0x0]

  lemma EmptyRound1()
    ensures Round1(Quad(0x67452301, 0xefcdab89, 0x98badcfe, 0x10325476), EMPTY) ==
            Quad(0xf56c7cf1, 0xd6819c6a, 0x5aa53f75, 0x374943a7)
  {
    assert Md5Step(F1(0xefcdab89, 0x98badcfe, 0x10325476), 0x67452301, 0xefcdab89, 0x80, 0xd76aa478, 7) == 0xa5202774;
    assert Md5Step(F1(0xa5202774, 0xefcdab89, 0x98badcfe), 0x10325476, 0xa5202774, 0x0, 0xe8c7b756, 12) == 0xf59592dd;
    assert Md5Step(F1(0xf59592dd, 0xa5202774, 0xefcdab89), 0x98badcfe, 0xf59592dd, 0x0, 0x242070db, 17) == 0xe7f06b23;
    assert Md5Step(F1(0xe7f06b23, 0xf59592dd, 0xa5202774), 0xefcdab89, 0xe7f06b23, 0x0, 0xc1bdceee, 22) == 0x1b163203;
    assert Md5Step(F1(0x1b163203, 0xe7f06b23, 0xf59592dd), 0xa5202774, 0x1b163203, 0x0, 0xf57c0faf, 7) == 0x32033344;
    assert Md5Step(F1(0x32033344, 0x1b163203, 0xe7f06b23), 0xf59592dd, 0x32033344, 0x0, 0x4787c62a, 12) == 0x2f35d494;
    assert Md5Step(F1(0x2f35d494, 0x32033344, 0x1b163203), 0xe7f06b23, 0x2f35d494, 0x0, 0xa8304613, 17) == 0xf5b158db;
    assert Md5Step(F1(0xf5b158db, 0x2f35d494, 0x32033344), 0x1b163203, 0xf5b158db, 0x0, 0xfd469501, 22) == 0x9bc13ce9;
    assert Md5Step(F1(0x9bc13ce9, 0xf5b158db, 0x2f35d494), 0x32033344, 0x9bc13ce9, 0x0, 0x698098d8, 7) == 0x3893b991;
    assert Md5Step(F1(0x3893b991, 0x9bc13ce9, 0xf5b158db), 0x2f35d494, 0x3893b991, 0x0, 0x8b44f7af, 12) == 0xfce4a312;
    assert Md5Step(F1(0xfce4a312, 0x3893b991, 0x9bc13ce9), 0xf5b158db, 0xfce4a312, 0x0, 0xffff5bb1, 17) == 0xe1ef0576;
    assert Md5Step(F1(0xe1ef0576, 0xfce4a312, 0x3893b991), 0x9bc13ce9, 0xe1ef0576, 0x0, 0x895cd7be, 22) == 0x70768a29;
    assert Md5Step(F1(0x70768a29, 0xe1ef0576, 0xfce4a312), 0x3893b991, 0x70768a29, 0x0, 0x6b901122, 7) == 0xf56c7cf1;
    assert Md5Step(F1(0xf56c7cf1, 0x70768a29, 0xe1ef0576), 0xfce4a312, 0xf56c7cf1, 0x0, 0xfd987193, 12) == 0x374943a7;
    assert Md5Step(F1(0x374943a7, 0xf56c7cf1, 0x70768a29), 0xe1ef0576, 0x374943a7, 0x0, 0xa679438e, 17) == 0x5aa53f75;
    assert Md5Step(F1(0x5aa53f75, 0x374943a7, 0xf56c7cf1), 0x70768a29, 0x5aa53f75, 0x0, 0x49b40821, 22) == 0xd6819c6a;
  }

  lemma EmptyRound2()
    ensures Round2(Quad(0xf56c7cf1, 0xd6819c6a, 0x5aa53f75, 0x374943a7), EMPTY) ==
            Quad(0x13707036, 0xa2205f1f, 0x1c31c384, 0xae7813db)
  {
    assert Md5Step(F2(0xd6819c6a, 0x5aa53f75, 0x374943a7), 0xf56c7cf1, 0xd6819c6a, 0x0, 0xf61e2562, 5) == 0x1c7d7513;
    assert Md5Step(F2(0x1c7d7513, 0xd6819c6a, 0x5aa53f75), 0x374943a7, 0x1c7d7513, 0x0, 0xc040b340, 9) == 0x7bd57a3a;
    assert Md5Step(F2(0x7bd57a3a, 0x1c7d7513, 0xd6819c6a), 0x5aa53f75, 0x7bd57a3a, 0x0, 0x265e5a51, 14) == 0xc095f13a;
    assert Md5Step(F2(0xc095f13a, 0x7bd57a3a, 0x1c7d7513), 0xd6819c6a, 0xc095f13a, 0x80, 0xe9b6c7aa, 20) == 0xbd782e17;
    assert Md5Step(F2(0xbd782e17, 0xc095f13a, 0x7bd57a3a), 0x1c7d7513, 0xbd782e17, 0x0, 0xd62f105d, 5) == 0x3d1e3e6c;
    assert Md5Step(F2(0x3d1e3e6c, 0xbd782e17, 0xc095f13a), 0x7bd57a3a, 0x3d1e3e6c, 0x0, 0x02441453, 9) == 0x68b7b3e3;
    assert Md5Step(F2(0x68b7b3e3, 0x3d1e3e6c, 0xbd782e17), 0xc095f13a, 0x68b7b3e3, 0x0, 0xd8a1e681, 14) == 0xeb41643e;
    assert Md5Step(F2(0xeb41643e, 0x68b7b3e3, 0x3d1e3e6c), 0xbd782e17, 0xeb41643e, 0x0, 0xe7d3fbc8, 20) == 0xe422531a;
    assert Md5Step(F2(0xe422531a, 0xeb41643e, 0x68b7b3e3), 0x3d1e3e6c, 0xe422531a, 0x0, 0x21e1cde6, 5) == 0x306ec122;
    assert Md5Step(F2(0x306ec122, 0xe422531a, 0xeb41643e), 0x68b7b3e3, 0x306ec122, 0x0, 0xc33707d6, 9) == 0xd28c77c2;
    assert Md5Step(F2(0xd28c77c2, 0x306ec122, 0xe422531a), 0xeb41643e, 0xd28c77c2, 0x0, 0xf4d50d87, 14) == 0xa3c663da;
    assert Md5Step(F2(0xa3c663da, 0xd28c77c2, 0x306ec122), 0xe422531a, 0xa3c663da, 0x0, 0x455a14ed, 20) == 0xa0572807;
    assert Md5Step(F2(0xa0572807, 0xa3c663da, 0xd28c77c2), 0x306ec122, 0xa0572807, 0x0, 0xa9e3e905, 5) == 0x13707036;
    assert Md5Step(F2(0x13707036, 0xa0572807, 0xa3c663da), 0xd28c77c2, 0x13707036, 0x0, 0xfcefa3f8, 9) == 0xae7813db;
    assert Md5Step(F2(0xae7813db, 0x13707036, 0xa0572807), 0xa3c663da, 0xae7813db, 0x0, 0x676f02d9, 14) == 0x1c31c384;
    assert Md5Step(F2(0x1c31c384, 0xae7813db, 0x13707036), 0xa0572807, 0x1c31c384, 0x0, 0x8d2a4c8a, 20) == 0xa2205f1f;
  }

  lemma EmptyRound3()
    ensures Round3(Quad(0x13707036, 0xa2205f1f, 0x1c31c384, 0xae7813db), EMPTY) ==
            Quad(0x3f55edfd, 0xca7d2dbd, 0x68d84ea2, 0x22a31f54)
  {
    assert Md5Step(F3(0xa2205f1f, 0x1c31c384, 0xae7813db), 0x13707036, 0xa2205f1f, 0x0, 0xfffa3942, 4) == 0xdf63eaa1;
    assert Md5Step(F3(0xdf63eaa1, 0xa2205f1f, 0x1c31c384), 0xae7813db, 0xdf63eaa1, 0x0, 0x8771f681, 11) == 0xc3689f5b;
    assert Md5Step(F3(0xc3689f5b, 0xdf63eaa1, 0xa2205f1f), 0x1c31c384, 0xc3689f5b, 0x0, 0x6d9d6122, 16) == 0x12f3e755;
    assert Md5Step(F3(0x12f3e755, 0xc3689f5b, 0xdf63eaa1), 0xa2205f1f, 0x12f3e755, 0x0, 0xfde5380c, 23) == 0x004b6669;
    assert Md5Step(F3(0x004b6669, 0x12f3e755, 0xc3689f5b), 0xdf63eaa1, 0x004b6669, 0x0, 0xa4beea44, 4) == 0x5f7a9b2e;
    assert Md5Step(F3(0x5f7a9b2e, 0x004b6669, 0x12f3e755), 0xc3689f5b, 0x5f7a9b2e, 0x0, 0x4bdecfa9, 11) == 0xabc34e16;
    assert Md5Step(F3(0xabc34e16, 0x5f7a9b2e, 0x004b6669), 0x12f3e755, 0xabc34e16, 0x0, 0xf6bb4b60, 16) == 0x91ca4cb7;
    assert Md5Step(F3(0x91ca4cb7, 0xabc34e16, 0x5f7a9b2e), 0x004b6669, 0x91ca4cb7, 0x0, 0xbebfbc70, 23) == 0xc5dc8c15;
    assert Md5Step(F3(0xc5dc8c15, 0x91ca4cb7, 0xabc34e16), 0x5f7a9b2e, 0xc5dc8c15, 0x0, 0x289b7ec6, 4) == 0x4497169d;
    assert Md5Step(F3(0x4497169d, 0xc5dc8c15, 0x91ca4cb7), 0xabc34e16, 0x4497169d, 0x80, 0xeaa127fa, 11) == 0x76fd93d4;
    assert Md5Step(F3(0x76fd93d4, 0x4497169d, 0xc5dc8c15), 0x91ca4cb7, 0x76fd93d4, 0x0, 0xd4ef3085, 16) == 0xfd95f243;
    assert Md5Step(F3(0xfd95f243, 0x76fd93d4, 0x4497169d), 0xc5dc8c15, 0xfd95f243, 0x0, 0x04881d05, 23) == 0x0fe32453;
    assert Md5Step(F3(0x0fe32453, 0xfd95f243, 0x76fd93d4), 0x4497169d, 0x0fe32453, 0x0, 0xd9d4d039, 4) == 0x3f55edfd;
    assert Md5Step(F3(0x3f55edfd, 0x0fe32453, 0xfd95f243), 0x76fd93d4, 0x3f55edfd, 0x0, 0xe6db99e5, 11) == 0x22a31f54;
    assert Md5Step(F3(0x22a31f54, 0x3f55edfd, 0x0fe32453), 0xfd95f243, 0x22a31f54, 0x0, 0x1fa27cf8, 16) == 0x68d84ea2;
    assert Md5Step(F3(0x68d84ea2, 0x22a31f54, 0x3f55edfd), 0x0fe32453, 0x68d84ea2, 0x0, 0xc4ac5665, 23) == 0xca7d2dbd;
  }

  lemma EmptyRound4()
    ensures Round4(Quad(0x3f55edfd, 0xca7d2dbd, 0x68d84ea2, 0x22a31f54), EMPTY) ==
            Quad(0x7246fad3, 0x14e45506, 0xff4ea3eb, 0x6e10a476)
  {
    assert Md5Step(F4(0xca7d2dbd, 0x68d84ea2, 0x22a31f54), 0x3f55edfd, 0xca7d2dbd, 0x80, 0xf4292244, 6) == 0x93aa2577;
    assert Md5Step(F4(0x93aa2577, 0xca7d2dbd, 0x68d84ea2), 0x22a31f54, 0x93aa2577, 0x0, 0x432aff97, 10) == 0x1688dc85;
    assert Md5Step(F4(0x1688dc85, 0x93aa2577, 0xca7d2dbd), 0x68d84ea2, 0x1688dc85, 0x0, 0xab9423a7, 15) == 0xcd85b8cb;
    assert Md5Step(F4(0xcd85b8cb, 0x1688dc85, 0x93aa2577), 0xca7d2dbd, 0xcd85b8cb, 0x0, 0xfc93a039, 21) == 0x561e0689;
    assert Md5Step(F4(0x561e0689, 0xcd85b8cb, 0x1688dc85), 0x93aa2577, 0x561e0689, 0x0, 0x655b59c3, 6) == 0x5625a114;
    assert Md5Step(F4(0x5625a114, 0x561e0689, 0xcd85b8cb), 0x1688dc85, 0x5625a114, 0x0, 0x8f0ccc92, 10) == 0x3450f42b;
    assert Md5Step(F4(0x3450f42b, 0x5625a114, 0x561e0689), 0xcd85b8cb, 0x3450f42b, 0x0, 0xffeff47d, 15) == 0x392ad0d0;
    assert Md5Step(F4(0x392ad0d0, 0x3450f42b, 0x5625a114), 0x561e0689, 0x392ad0d0, 0x0, 0x85845dd1, 21) == 0x1e77fa61;
    assert Md5Step(F4(0x1e77fa61, 0x392ad0d0, 0x3450f42b), 0x5625a114, 0x1e77fa61, 0x0, 0x6fa87e4f, 6) == 0x474a9c8c;
    assert Md5Step(F4(0x474a9c8c, 0x1e77fa61, 0x392ad0d0), 0x3450f42b, 0x474a9c8c, 0x0, 0xfe2ce6e0, 10) == 0xdfce00bc;
    assert Md5Step(F4(0xdfce00bc, 0x474a9c8c, 0x1e77fa61), 0x392ad0d0, 0xdfce00bc, 0x0, 0xa3014314, 15) == 0x36594b14;
    assert Md5Step(F4(0x36594b14, 0xdfce00bc, 0x474a9c8c), 0x1e77fa61, 0x36594b14, 0x0, 0x4e0811a1, 21) == 0x30130182;
    assert Md5Step(F4(0x30130182, 0x36594b14, 0xdfce00bc), 0x474a9c8c, 0x30130182, 0x0, 0xf7537e82, 6) == 0x7246fad3;
    assert Md5Step(F4(0x7246fad3, 0x30130182, 0x36594b14), 0xdfce00bc, 0x7246fad3, 0x0, 0xbd3af235, 10) == 0x6e10a476;
    assert Md5Step(F4(0x6e10a476, 0x7246fad3, 0x30130182), 0x36594b14, 0x6e10a476, 0x0, 0x2ad7d2bb, 15) == 0xff4ea3eb;
    assert Md5Step(F4(0xff4ea3eb, 0x6e10a476, 0x7246fad3), 0x30130182, 0xff4ea3eb, 0x0, 0xeb86d391, 21) == 0x14e45506;
  }

  lemma EmptyLength()
    ensures LengthBytes(0) == [0x00, 0, 0, 0, 0, 0, 0, 0]
  {
    NumberOf0();
    NumberOf24();
    hide NumberBytes;
    assert 8 * 0 % TWO64 == 0 && 0 % TWO32 == 0 && 0 / TWO32 == 0;
    assert LengthBytes(0) == NumberBytes(0) + NumberBytes(0);
  }

  lemma EmptyTransform()
    ensures Transform(INITIAL, EMPTY) == Quad(0xd98c1dd4, 0x04b2008f, 0x980980e9, 0x7e42f8ec)
  {
    hide Round1, Round2, Round3, Round4;
    EmptyRound1();
    EmptyRound2();
    EmptyRound3();
    EmptyRound4();
  }

  lemma EmptyPadding()
    ensures Padded([]) == [] + [0x80] + Zeros(55) + [0x00, 0, 0, 0, 0, 0, 0, 0]
  {
    assert ZerosFor(0) == 55;
    EmptyLength();
    hide LengthBytes, Zeros, ZerosFor;
  }

  lemma EmptyBlock()
    ensures |Padded([])| == 64 && Words(Padded([])) == EMPTY
  {
    EmptyPadding();
    hide Padded, LengthBytes, NumberBytes;
    var padded := Padded([]);
    assert padded[0] == 0x80 && padded[1] == 0x00 && padded[2] == 0x00 && padded[3] == 0x00;
    assert padded[56] == 0x00 && forall k | 4 <= k < 64 && k != 56 :: padded[k] == 0;
    assert WordOf(0x80, 0x00, 0x00, 0x00) == 0x80 && WordOf(0x00, 0, 0, 0) == 0x00;
    assert WordOf(0, 0, 0, 0) == 0;
    hide WordOf, Zeros;
    forall i | 0 <= i < 16 ensures Words(padded)[i] == EMPTY[i] {
    }
  }

  /** MD5("") = d41d8cd98f00b204e9800998ecf8427e */
  lemma EmptyDigest()
    ensures Digest([]) ==
            [0xd4, 0x1d, 0x8c, 0xd9, 0x8f, 0x00, 0xb2, 0x04,
             0xe9, 0x80, 0x09, 0x98, 0xec, 0xf8, 0x42, 0x7e]
  {
    hide Transform, Compressed, Words, Padded;
    var padded := Padded([]);
    EmptyBlock();
    assert padded[..64] == padded && padded[64..] == [];
    TransformAgrees(INITIAL, EMPTY);
    EmptyTransform();
  }

  // ----- The message "abc" -----

  const ABC: seq<Word> := [0x80636261, 0x0, 0x0, 0x0, 0x0, 0x0, 0x0, 0x0, 0x0, 0x0, 0x0, 0x0, 0x0, 0x0, 0x18, 0x0]

  lemma AbcRound1()
    ensures Round1(Quad(0x67452301, 0xefcdab89, 0x98badcfe, 0x10325476), ABC) ==
            Quad(0xdda9b9a6, 0x72aff2e0, 0xe396856b, 0xa1051895)
  {
    assert Md5Step(F1(0xefcdab89, 0x98badcfe, 0x10325476), 0x67452301, 0xefcdab89, 0x80636261, 0xd76aa478, 7)
           == 0xd6d117b4;
    assert Md5Step(F1(0xd6d117b4, 0xefcdab89, 0x98badcfe), 0x10325476, 0xd6d117b4, 0x0, 0xe8c7b756, 12) == 0x344a8432;
    assert Md5Step(F1(0x344a8432, 0xd6d117b4, 0xefcdab89), 0x98badcfe, 0x344a8432, 0x0, 0x242070db, 17) == 0x2f6fbd72;
    assert Md5Step(F1(0x2f6fbd72, 0x344a8432, 0xd6d117b4), 0xefcdab89, 0x2f6fbd72, 0x0, 0xc1bdceee, 22) == 0x7ad956f2;
    assert Md5Step(F1(0x7ad956f2, 0x2f6fbd72, 0x344a8432), 0xd6d117b4, 0x7ad956f2, 0x0, 0xf57c0faf, 7) == 0xc73741ef;
    assert Md5Step(F1(0xc73741ef, 0x7ad956f2, 0x2f6fbd72), 0x344a8432, 0xc73741ef, 0x0, 0x4787c62a, 12) == 0x8bac3051;
    assert Md5Step(F1(0x8bac3051, 0xc73741ef, 0x7ad956f2), 0x2f6fbd72, 0x8bac3051, 0x0, 0xa8304613, 17) == 0x207dc67b;
    assert Md5Step(F1(0x207dc67b, 0x8bac3051, 0xc73741ef), 0x7ad956f2, 0x207dc67b, 0x0, 0xfd469501, 22) == 0x928d99f6;
    assert Md5Step(F1(0x928d99f6, 0x207dc67b, 0x8bac3051), 0xc73741ef, 0x928d99f6, 0x0, 0x698098d8, 7) == 0x854b3712;
    assert Md5Step(F1(0x854b3712, 0x928d99f6, 0x207dc67b), 0x8bac3051, 0x854b3712, 0x0, 0x8b44f7af, 12) == 0x74e2f284;
    assert Md5Step(F1(0x74e2f284, 0x854b3712, 0x928d99f6), 0x207dc67b, 0x74e2f284, 0x0, 0xffff5bb1, 17) == 0x3020401c;
    assert Md5Step(F1(0x3020401c, 0x74e2f284, 0x854b3712), 0x928d99f6, 0x3020401c, 0x0, 0x895cd7be, 22) == 0x5ed49596;
    assert Md5Step(F1(0x5ed49596, 0x3020401c, 0x74e2f284), 0x854b3712, 0x5ed49596, 0x0, 0x6b901122, 7) == 0xdda9b9a6;
    assert Md5Step(F1(0xdda9b9a6, 0x5ed49596, 0x3020401c), 0x74e2f284, 0xdda9b9a6, 0x0, 0xfd987193, 12) == 0xa1051895;
    assert Md5Step(F1(0xa1051895, 0xdda9b9a6, 0x5ed49596), 0x3020401c, 0xa1051895, 0x18, 0xa679438e, 17) == 0xe396856b;
    assert Md5Step(F1(0xe396856b, 0xa1051895, 0xdda9b9a6), 0x5ed49596, 0xe396856b, 0x0, 0x49b40821, 22) == 0x72aff2e0;
  }

  lemma AbcRound2()
    ensures Round2(Quad(0xdda9b9a6, 0x72aff2e0, 0xe396856b, 0xa1051895), ABC) ==
            Quad(0x790a77fb, 0x726342d3, 0xa62884aa, 0x9f47e4f8)
  {
    assert Md5Step(F2(0x72aff2e0, 0xe396856b, 0xa1051895), 0xdda9b9a6, 0x72aff2e0, 0x0, 0xf61e2562, 5) == 0x3e9e9126;
    assert Md5Step(F2(0x3e9e9126, 0x72aff2e0, 0xe396856b), 0xa1051895, 0x3e9e9126, 0x0, 0xc040b340, 9) == 0x4a1d804e;
    assert Md5Step(F2(0x4a1d804e, 0x3e9e9126, 0x72aff2e0), 0xe396856b, 0x4a1d804e, 0x0, 0x265e5a51, 14) == 0xe25e1652;
    assert Md5Step(F2(0xe25e1652, 0x4a1d804e, 0x3e9e9126), 0x72aff2e0, 0xe25e1652, 0x80636261, 0xe9b6c7aa, 20)
           == 0xb5b204e4;
    assert Md5Step(F2(0xb5b204e4, 0xe25e1652, 0x4a1d804e), 0x3e9e9126, 0xb5b204e4, 0x0, 0xd62f105d, 5) == 0x59a8ffda;
    assert Md5Step(F2(0x59a8ffda, 0xb5b204e4, 0xe25e1652), 0x4a1d804e, 0x59a8ffda, 0x0, 0x02441453, 9) == 0x6d002f1e;
    assert Md5Step(F2(0x6d002f1e, 0x59a8ffda, 0xb5b204e4), 0xe25e1652, 0x6d002f1e, 0x0, 0xd8a1e681, 14) == 0xabfc7920;
    assert Md5Step(F2(0xabfc7920, 0x6d002f1e, 0x59a8ffda), 0xb5b204e4, 0xabfc7920, 0x0, 0xe7d3fbc8, 20) == 0x47092c07;
    assert Md5Step(F2(0x47092c07, 0xabfc7920, 0x6d002f1e), 0x59a8ffda, 0x47092c07, 0x0, 0x21e1cde6, 5) == 0xb7f268cf;
    assert Md5Step(F2(0xb7f268cf, 0x47092c07, 0xabfc7920), 0x6d002f1e, 0xb7f268cf, 0x18, 0xc33707d6, 9) == 0x09388eff;
    assert Md5Step(F2(0x09388eff, 0xb7f268cf, 0x47092c07), 0xabfc7920, 0x09388eff, 0x0, 0xf4d50d87, 14) == 0xfe1623b1;
    assert Md5Step(F2(0xfe1623b1, 0x09388eff, 0xb7f268cf), 0x47092c07, 0xfe1623b1, 0x0, 0x455a14ed, 20) == 0x786acb8f;
    assert Md5Step(F2(0x786acb8f, 0xfe1623b1, 0x09388eff), 0xb7f268cf, 0x786acb8f, 0x0, 0xa9e3e905, 5) == 0x790a77fb;
    assert Md5Step(F2(0x790a77fb, 0x786acb8f, 0xfe1623b1), 0x09388eff, 0x790a77fb, 0x0, 0xfcefa3f8, 9) == 0x9f47e4f8;
    assert Md5Step(F2(0x9f47e4f8, 0x790a77fb, 0x786acb8f), 0xfe1623b1, 0x9f47e4f8, 0x0, 0x676f02d9, 14) == 0xa62884aa;
    assert Md5Step(F2(0xa62884aa, 0x9f47e4f8, 0x790a77fb), 0x786acb8f, 0xa62884aa, 0x0, 0x8d2a4c8a, 20) == 0x726342d3;
  }

  lemma AbcRound3()
    ensures Round3(Quad(0x790a77fb, 0x726342d3, 0xa62884aa, 0x9f47e4f8), ABC) ==
            Quad(0x7f2e507b, 0x7beb9700, 0x8fae6399, 0x99d9679d)
  {
    assert Md5Step(F3(0x726342d3, 0xa62884aa, 0x9f47e4f8), 0x790a77fb, 0x726342d3, 0x0, 0xfffa3942, 4) == 0xb3707ebf;
    assert Md5Step(F3(0xb3707ebf, 0x726342d3, 0xa62884aa), 0x9f47e4f8, 0xb3707ebf, 0x0, 0x8771f681, 11) == 0x60127b2e;
    assert Md5Step(F3(0x60127b2e, 0xb3707ebf, 0x726342d3), 0xa62884aa, 0x60127b2e, 0x0, 0x6d9d6122, 16) == 0x8d212ff5;
    assert Md5Step(F3(0x8d212ff5, 0x60127b2e, 0xb3707ebf), 0x726342d3, 0x8d212ff5, 0x18, 0xfde5380c, 23) == 0x3b0875c7;
    assert Md5Step(F3(0x3b0875c7, 0x8d212ff5, 0x60127b2e), 0xb3707ebf, 0x3b0875c7, 0x0, 0xa4beea44, 4) == 0x21b117b9;
    assert Md5Step(F3(0x21b117b9, 0x3b0875c7, 0x8d212ff5), 0x60127b2e, 0x21b117b9, 0x0, 0x4bdecfa9, 11) == 0x6e7429d5;
    assert Md5Step(F3(0x6e7429d5, 0x21b117b9, 0x3b0875c7), 0x8d212ff5, 0x6e7429d5, 0x0, 0xf6bb4b60, 16) == 0x3575227e;
    assert Md5Step(F3(0x3575227e, 0x6e7429d5, 0x21b117b9), 0x3b0875c7, 0x3575227e, 0x0, 0xbebfbc70, 23) == 0x5a2f5ea5;
    assert Md5Step(F3(0x5a2f5ea5, 0x3575227e, 0x6e7429d5), 0x21b117b9, 0x5a2f5ea5, 0x0, 0x289b7ec6, 4) == 0x11de1779;
    assert Md5Step(F3(0x11de1779, 0x5a2f5ea5, 0x3575227e), 0x6e7429d5, 0x11de1779, 0x80636261, 0xeaa127fa, 11)
           == 0xfadcaa38;
    assert Md5Step(F3(0xfadcaa38, 0x11de1779, 0x5a2f5ea5), 0x3575227e, 0xfadcaa38, 0x0, 0xd4ef3085, 16) == 0x31c465ca;
    assert Md5Step(F3(0x31c465ca, 0xfadcaa38, 0x11de1779), 0x5a2f5ea5, 0x31c465ca, 0x0, 0x04881d05, 23) == 0x4c6124f4;
    assert Md5Step(F3(0x4c6124f4, 0x31c465ca, 0xfadcaa38), 0x11de1779, 0x4c6124f4, 0x0, 0xd9d4d039, 4) == 0x7f2e507b;
    assert Md5Step(F3(0x7f2e507b, 0x4c6124f4, 0x31c465ca), 0xfadcaa38, 0x7f2e507b, 0x0, 0xe6db99e5, 11) == 0x99d9679d;
    assert Md5Step(F3(0x99d9679d, 0x7f2e507b, 0x4c6124f4), 0x31c465ca, 0x99d9679d, 0x0, 0x1fa27cf8, 16) == 0x8fae6399;
    assert Md5Step(F3(0x8fae6399, 0x99d9679d, 0x7f2e507b), 0x4c6124f4, 0x8fae6399, 0x0, 0xc4ac5665, 23) == 0x7beb9700;
  }

  lemma AbcRound4()
    ensures Round4(Quad(0x7f2e507b, 0x7beb9700, 0x8fae6399, 0x99d9679d), ABC) ==
            Quad(0x310ade8f, 0xc08226b3, 0xe484b9d8, 0x624d8cb2)
  {
    assert Md5Step(F4(0x7beb9700, 0x8fae6399, 0x99d9679d), 0x7f2e507b, 0x7beb9700, 0x80636261, 0xf4292244, 6)
           == 0x7b201df8;
    assert Md5Step(F4(0x7b201df8, 0x7beb9700, 0x8fae6399), 0x99d9679d, 0x7b201df8, 0x0, 0x432aff97, 10) == 0xf4e8e96e;
    assert Md5Step(F4(0xf4e8e96e, 0x7b201df8, 0x7beb9700), 0x8fae6399, 0xf4e8e96e, 0x18, 0xab9423a7, 15) == 0xb298cefd;
    assert Md5Step(F4(0xb298cefd, 0xf4e8e96e, 0x7b201df8), 0x7beb9700, 0xb298cefd, 0x0, 0xfc93a039, 21) == 0x8bf025c4;
    assert Md5Step(F4(0x8bf025c4, 0xb298cefd, 0xf4e8e96e), 0x7b201df8, 0x8bf025c4, 0x0, 0x655b59c3, 6) == 0x06cc5e8a;
    assert Md5Step(F4(0x06cc5e8a, 0x8bf025c4, 0xb298cefd), 0xf4e8e96e, 0x06cc5e8a, 0x0, 0x8f0ccc92, 10) == 0x5b0d97aa;
    assert Md5Step(F4(0x5b0d97aa, 0x06cc5e8a, 0x8bf025c4), 0xb298cefd, 0x5b0d97aa, 0x0, 0xffeff47d, 15) == 0x7d632dd0;
    assert Md5Step(F4(0x7d632dd0, 0x5b0d97aa, 0x06cc5e8a), 0x8bf025c4, 0x7d632dd0, 0x0, 0x85845dd1, 21) == 0x3bfa2c27;
    assert Md5Step(F4(0x3bfa2c27, 0x7d632dd0, 0x5b0d97aa), 0x06cc5e8a, 0x3bfa2c27, 0x0, 0x6fa87e4f, 6) == 0x7f81cc35;
    assert Md5Step(F4(0x7f81cc35, 0x3bfa2c27, 0x7d632dd0), 0x5b0d97aa, 0x7f81cc35, 0x0, 0xfe2ce6e0, 10) == 0x094454ab;
    assert Md5Step(F4(0x094454ab, 0x7f81cc35, 0x3bfa2c27), 0x7d632dd0, 0x094454ab, 0x0, 0xa3014314, 15) == 0x4f9dbe3f;
    assert Md5Step(F4(0x4f9dbe3f, 0x094454ab, 0x7f81cc35), 0x3bfa2c27, 0x4f9dbe3f, 0x0, 0x4e0811a1, 21) == 0x7327d604;
    assert Md5Step(F4(0x7327d604, 0x4f9dbe3f, 0x094454ab), 0x7f81cc35, 0x7327d604, 0x0, 0xf7537e82, 6) == 0x310ade8f;
    assert Md5Step(F4(0x310ade8f, 0x7327d604, 0x4f9dbe3f), 0x094454ab, 0x310ade8f, 0x0, 0xbd3af235, 10) == 0x624d8cb2;
    assert Md5Step(F4(0x624d8cb2, 0x310ade8f, 0x7327d604), 0x4f9dbe3f, 0x624d8cb2, 0x0, 0x2ad7d2bb, 15) == 0xe484b9d8;
    assert Md5Step(F4(0xe484b9d8, 0x624d8cb2, 0x310ade8f), 0x7327d604, 0xe484b9d8, 0x0, 0xeb86d391, 21) == 0xc08226b3;
  }

  lemma AbcLength()
    ensures LengthBytes(3) == [0x18, 0, 0, 0, 0, 0, 0, 0]
  {
    NumberOf0();
    NumberOf24();
    hide NumberBytes;
    assert 8 * 3 % TWO64 == 24 && 24 % TWO32 == 24 && 24 / TWO32 == 0;
    assert LengthBytes(3) == NumberBytes(24) + NumberBytes(0);
  }

  lemma AbcTransform()
    ensures Transform(INITIAL, ABC) == Quad(0x98500190, 0xb04fd23c, 0x7d3f96d6, 0x727fe128)
  {
    hide Round1, Round2, Round3, Round4;
    AbcRound1();
    AbcRound2();
    AbcRound3();
    AbcRound4();
  }

  lemma AbcPadding()
    ensures Padded([0x61, 0x62, 0x63]) == [0x61, 0x62, 0x63] + [0x80] + Zeros(52) + [0x18, 0, 0, 0, 0, 0, 0, 0]
  {
    assert ZerosFor(3) == 52;
    AbcLength();
    hide LengthBytes, Zeros, ZerosFor;
  }

  lemma AbcBlock()
    ensures |Padded([0x61, 0x62, 0x63])| == 64 && Words(Padded([0x61, 0x62, 0x63])) == ABC
  {
    AbcPadding();
    hide Padded, LengthBytes, NumberBytes;
    var padded := Padded([0x61, 0x62, 0x63]);
    assert padded[0] == 0x61 && padded[1] == 0x62 && padded[2] == 0x63 && padded[3] == 0x80;
    assert padded[56] == 0x18 && forall k | 4 <= k < 64 && k != 56 :: padded[k] == 0;
    assert WordOf(0x61, 0x62, 0x63, 0x80) == 0x80636261 && WordOf(0x18, 0, 0, 0) == 0x18;
    assert WordOf(0, 0, 0, 0) == 0;
    hide WordOf, Zeros;
    forall i | 0 <= i < 16 ensures Words(padded)[i] == ABC[i] {
    }
  }

  /** MD5("abc") = 900150983cd24fb0d6963f7d28e17f72 */
  lemma AbcDigest()
    ensures Digest([0x61, 0x62, 0x63]) ==
            [0x90, 0x01, 0x50, 0x98, 0x3c, 0xd2, 0x4f, 0xb0,
             0xd6, 0x96, 0x3f, 0x7d, 0x28, 0xe1, 0x7f, 0x72]
  {
    hide Transform, Compressed, Words, Padded;
    var padded := Padded([0x61, 0x62, 0x63]);
    AbcBlock();
    assert padded[..64] == padded && padded[64..] == [];
    TransformAgrees(INITIAL, ABC);
    AbcTransform();
  }
}
