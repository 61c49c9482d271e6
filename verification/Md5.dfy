/**
 The MD5 message digest: the definition on a whole message, after RFC 1321, and
 the incremental computation with its 64-byte buffer and two-word bit count.

 The host is little-endian; bytes and 32-bit words share memory in that order.
 */
module Md5 {
  import opened Md5Words
  import opened Md5Transform

  type Byte = bv8
  type Message = seq<Byte>

  const TWO32 := 0x1_0000_0000
  const TWO64 := 0x1_0000_0000_0000_0000

  // ----- Words and bytes -----

  function WordOf(a: Byte, b: Byte, c: Byte, d: Byte): Word {
    (a as Word) | ((b as Word) << 8) | ((c as Word) << 16) | ((d as Word) << 24)
  }

  function BytesOf(w: Word): Message {
    [(w & 0xFF) as Byte, ((w >> 8) & 0xFF) as Byte, ((w >> 16) & 0xFF) as Byte, (w >> 24) as Byte]
  }

  lemma BytesOfWord(a: Byte, b: Byte, c: Byte, d: Byte)
    ensures BytesOf(WordOf(a, b, c, d)) == [a, b, c, d]
  {
  }

  function Words(block: Message): (words: seq<Word>)
    requires |block| == 64
    ensures |words| == 16
  {
    seq(16, i requires 0 <= i < 16 =>
      WordOf(block[4 * i], block[4 * i + 1], block[4 * i + 2], block[4 * i + 3]))
  }

  function ByteAt(n: nat, k: nat): Byte
    requires k < 4
  {
    var shifted := if k == 0 then n else if k == 1 then n / 0x100 else if k == 2 then n / 0x1_0000 else n / 0x100_0000;
    (shifted % 0x100) as Byte
  }

  /** Four bytes of a number, least significant first. */
  function NumberBytes(n: nat): (bytes: Message)
    ensures |bytes| == 4
  {
    [ByteAt(n, 0), ByteAt(n, 1), ByteAt(n, 2), ByteAt(n, 3)]
  }

  // ----- The definition -----

  const INITIAL := Quad(0x67452301, 0xefcdab89, 0x98badcfe, 0x10325476)

  function Compress(q: Quad, block: Message): Quad
    requires |block| == 64
  {
    Compressed(q, Words(block))
  }

  /** The chaining state after the whole blocks of a message. */
  function Chained(q: Quad, m: Message): Quad
    decreases |m|
  {
    if |m| < 64 then q else Chained(Compress(q, m[..64]), m[64..])
  }

  /** Step 1: a one bit, then zeros, up to 56 bytes modulo 64. */
  function ZerosFor(n: nat): nat {
    (119 - n % 64) % 64
  }

  function Zeros(n: nat): (z: Message)
    ensures |z| == n
  {
    seq(n, _ => 0)
  }

  /** Step 2: the length in bits before padding, modulo 2^64, low-order word first. */
  function LengthBytes(n: nat): (bytes: Message)
    ensures |bytes| == 8
  {
    var bits := 8 * n % TWO64;
    NumberBytes(bits % TWO32) + NumberBytes(bits / TWO32)
  }

  /** 256 to the power `k`. */
  function Weight(k: nat): (w: nat)
    ensures w > 0
  {
    if k == 0 then 1 else 0x100 * Weight(k - 1)
  }

  lemma Weights()
    ensures Weight(0) == 1 && Weight(1) == 0x100 && Weight(2) == 0x1_0000 && Weight(3) == 0x100_0000
    ensures Weight(4) == 0x1_0000_0000 && Weight(5) == 0x100_0000_0000
    ensures Weight(6) == 0x1_0000_0000_0000 && Weight(7) == 0x100_0000_0000_0000
  {
    assert Weight(3) == 0x100_0000;
  }

  lemma SameModulo(x: nat, t: nat)
    ensures (x + 0x100 * t) % 0x100 == x % 0x100
  {
  }

  lemma LowDigit(bits: nat, k: nat)
    requires k < 4
    ensures bits % TWO32 / Weight(k) % 0x100 == bits / Weight(k) % 0x100
  {
    Weights();
    hide Weight;
    var (high, low) := (bits / TWO32, bits % TWO32);
    match k {
      case 0 =>
        SameModulo(low, 0x100_0000 * high);
      case 1 =>
        assert bits / 0x100 == low / 0x100 + 0x100 * (0x1_0000 * high);
        SameModulo(low / 0x100, 0x1_0000 * high);
      case 2 =>
        assert bits / 0x1_0000 == low / 0x1_0000 + 0x100 * (0x100 * high);
        SameModulo(low / 0x1_0000, 0x100 * high);
      case _ =>
        assert bits / 0x100_0000 == low / 0x100_0000 + 0x100 * high;
        SameModulo(low / 0x100_0000, high);
    }
  }

  lemma HighDigit(bits: nat, k: nat)
    requires k < 4
    ensures bits / TWO32 / Weight(k) == bits / Weight(k + 4)
  {
    Weights();
  }

  lemma ByteHasWeight(n: nat, k: nat)
    requires k < 4
    ensures NumberBytes(n)[k] == (n / Weight(k) % 0x100) as Byte
  {
    Weights();
    hide Weight;
    assert NumberBytes(n)[k] == ByteAt(n, k);
  }

  /** Byte `k` of the length has the weight 256 to the power `k`. */
  lemma LengthByte(n: nat, k: nat)
    requires k < 8
    ensures LengthBytes(n)[k] == (8 * n % 0x1_0000_0000_0000_0000 / Weight(k) % 0x100) as Byte
  {
    hide Weight, NumberBytes;
    var bits := 8 * n % TWO64;
    var (low, high) := (bits % TWO32, bits / TWO32);
    if k < 4 {
      assert LengthBytes(n)[k] == NumberBytes(low)[k];
      ByteHasWeight(low, k);
      LowDigit(bits, k);
    } else {
      assert LengthBytes(n)[k] == NumberBytes(high)[k - 4];
      ByteHasWeight(high, k - 4);
      HighDigit(bits, k - 4);
    }
  }

  function Padded(m: Message): Message {
    m + [0x80] + Zeros(ZerosFor(|m|)) + LengthBytes(|m|)
  }

  function QuadBytes(q: Quad): Message {
    BytesOf(q.a) + BytesOf(q.b) + BytesOf(q.c) + BytesOf(q.d)
  }

  function Digest(m: Message): Message {
    QuadBytes(Chained(INITIAL, Padded(m)))
  }

  lemma ZerosFit(n: nat, zeros: nat)
    ensures (n + 1 + ZerosFor(n) + 8) % 64 == 0
    ensures (n + 1 + zeros + 8) % 64 == 0 ==> zeros >= ZerosFor(n)
  {
    var r := n % 64;
    assert ZerosFor(n) == if r <= 55 then 55 - r else 119 - r;
  }

  /** The padded message is whole blocks, and no shorter padding would do. */
  lemma PaddingFillsBlocks(m: Message, zeros: nat)
    ensures |Padded(m)| % 64 == 0
    ensures (|m| + 1 + zeros + 8) % 64 == 0 ==> zeros >= ZerosFor(|m|)
  {
    ZerosFit(|m|, zeros);
  }

  /** Different messages have different padded forms. */
  lemma PaddingIsInjective(a: Message, b: Message)
    requires Padded(a) == Padded(b)
    ensures a == b
  {
    EndMarker(a, Padded(a));
    EndMarker(b, Padded(b));
    assert a == Padded(a)[..|a|] && b == Padded(b)[..|b|];
  }

  /** The one bit is the last bit set before the length. */
  lemma EndMarker(m: Message, padded: Message)
    requires padded == Padded(m)
    ensures |m| < |padded| - 8 && padded[|m|] == 0x80 && padded[..|m|] == m
    ensures forall i | |m| < i < |padded| - 8 :: padded[i] == 0
  {
    hide LengthBytes;
  }

  lemma {:induction false} ChainedConcat(q: Quad, a: Message, b: Message)
    requires |a| % 64 == 0
    ensures Chained(q, a + b) == Chained(Chained(q, a), b)
    decreases |a|
  {
    if a == [] {
      assert a + b == b;
    } else {
      assert (a + b)[..64] == a[..64] && (a + b)[64..] == a[64..] + b;
      ChainedConcat(Compress(q, a[..64]), a[64..], b);
    }
  }

  lemma ChainedBlock(q: Quad, block: Message)
    requires |block| == 64
    ensures Chained(q, block) == Compress(q, block)
  {
    assert block[..64] == block && |block[64..]| == 0;
  }

  // ----- The incremental computation -----

  /** The whole blocks of `m`. */
  function Whole(m: Message): (r: Message)
    ensures |r| == |m| - |m| % 64 && |r| % 64 == 0
  {
    m[..|m| - |m| % 64]
  }

  /** The bytes of `m` that do not yet fill a block. */
  function Tail(m: Message): (r: Message)
    ensures |r| == |m| % 64
  {
    m[|m| - |m| % 64..]
  }

  lemma WholeAndTail(m: Message)
    ensures m == Whole(m) + Tail(m)
    ensures |m| % 64 == 0 ==> Whole(m) == m && Tail(m) == []
  {
  }

  /** Two-word addition of eight times a length, with the carry seen as a wrap of
      the low word. */
  lemma BitCountAdds(lo: nat, hi: nat, lo': nat, hi': nat, n: nat, len: nat)
    requires lo < TWO32 && hi < TWO32 && len < TWO64
    requires lo + TWO32 * hi == 8 * n % TWO64
    requires lo' == (lo + len % TWO32 * 8 % TWO32) % TWO32
    requires hi' == ((if lo' < lo then (hi + 1) % TWO32 else hi) + len / 0x2000_0000 % TWO32) % TWO32
    ensures lo' < TWO32 && hi' < TWO32
    ensures lo' + TWO32 * hi' == 8 * (n + len) % TWO64
  {
    var (low, high) := (len % 0x2000_0000, len / 0x2000_0000);
    ShiftKeepsLow(len);
    LowWordCarries(lo, 8 * low, lo');
    var carry := if lo' < lo then 1 else 0;
    AddHighWords(hi + carry, high);
    AddLength(8 * n, 8 * len);
    WrapHighWord(lo', hi + carry + high);
    HighWordIs(hi, carry, high, hi');
  }

  lemma LowWordCarries(lo: nat, add: nat, lo': nat)
    requires lo < TWO32 && add < TWO32 && lo' == (lo + add) % TWO32
    ensures lo' == lo + add - if lo' < lo then TWO32 else 0
  {
  }

  lemma HighWordIs(hi: nat, carry: nat, high: nat, hi': nat)
    requires hi < TWO32 && carry <= 1
    requires hi' == ((if carry == 1 then (hi + 1) % TWO32 else hi) + high % TWO32) % TWO32
    ensures hi' == (hi + carry + high) % TWO32
  {
    AddHighWords(hi + carry, high);
  }

  lemma ShiftKeepsLow(len: nat)
    ensures len % TWO32 * 8 % TWO32 == 8 * (len % 0x2000_0000)
    ensures 8 * len == 8 * (len % 0x2000_0000) + TWO32 * (len / 0x2000_0000)
  {
    var (low, high) := (len % 0x2000_0000, len / 0x2000_0000);
    var (r, q) := (high % 8, high / 8);
    assert len == low + 0x2000_0000 * high && high == 8 * q + r;
    assert len == low + 0x2000_0000 * r + TWO32 * q;
    Remainder(len, low + 0x2000_0000 * r, q);
    assert len % TWO32 * 8 == 8 * low + TWO32 * r;
    Remainder(len % TWO32 * 8, 8 * low, r);
  }

  lemma Remainder(n: nat, low: nat, q: nat)
    requires n == low + TWO32 * q && low < TWO32
    ensures n % TWO32 == low
  {
  }

  lemma AddHighWords(a: nat, b: nat)
    ensures (a % TWO32 + b % TWO32) % TWO32 == (a + b) % TWO32
  {
    assert a + b == a % TWO32 + b % TWO32 + TWO32 * (a / TWO32 + b / TWO32);
  }

  lemma AddLength(a: nat, b: nat)
    ensures (a % TWO64 + b) % TWO64 == (a + b) % TWO64
  {
    var q := a / TWO64;
    assert a + b == a % TWO64 + b + q * TWO64;
  }

  lemma WrapHighWord(lo: nat, hi: nat)
    requires lo < TWO32
    ensures (lo + TWO32 * hi) % TWO64 == lo + TWO32 * (hi % TWO32)
  {
    assert lo + TWO32 * hi == lo + TWO32 * (hi % TWO32) + TWO64 * (hi / TWO32);
  }

  /** The low word tells how many bytes are in the buffer. */
  lemma LowWordCounts(lo: nat, hi: nat, n: nat)
    requires lo < TWO32 && lo + TWO32 * hi == 8 * n % TWO64
    ensures lo / 8 % 64 == n % 64
  {
    var q := 8 * n / TWO64;
    var blocks := q * 0x80_0000_0000_0000 + hi * 0x80_0000;
    assert lo == 8 * (n - 64 * blocks);
    assert lo / 8 == n - 64 * blocks;
    assert n == lo / 8 + 64 * blocks;
  }

  method Memcpy(to: array<Byte>, at: nat, from: Message)
    requires at + |from| <= to.Length
    modifies to
    ensures to[..] == old(to[..at]) + from + old(to[at + |from|..])
  {
    forall i | 0 <= i < |from| {
      to[at + i] := from[i];
    }
  }

  class Context {
    var buf: Quad
    var bits0: nat            // low word of the bit count
    var bits1: nat
    const input: array<Byte>  // the 64-byte buffer
    ghost var fed: Message    // everything passed to Update so far

    ghost predicate Valid()
      reads this, input
    {
      && input.Length == 64
      && bits0 < TWO32 && bits1 < TWO32
      && bits0 + TWO32 * bits1 == 8 * |fed| % TWO64
      && buf == Chained(INITIAL, Whole(fed))
      && input[..|fed| % 64] == Tail(fed)
    }

    /** MD5Init; the buffer's content is arbitrary. */
    constructor ()
      ensures Valid() && fresh(input) && fed == []
    {
      input := new Byte[64];
      buf := INITIAL;
      bits0, bits1 := 0, 0;
      fed := [];
    }

    /** On a little-endian host the byte order stays as it is. */
    method ByteReverse(longs: nat)
      requires 0 < longs <= 16 && input.Length == 64
      modifies input
      ensures input[..] == old(input[..])
    {
      var at := 0;
      var left := longs;
      while true
        invariant at + 4 * left == 4 * longs && left > 0
        invariant input[..] == old(input[..])
        decreases left
      {
        var t := WordOf(input[at], input[at + 1], input[at + 2], input[at + 3]);
        BytesOfWord(input[at], input[at + 1], input[at + 2], input[at + 3]);
        var bytes := BytesOf(t);
        input[at], input[at + 1], input[at + 2], input[at + 3] := bytes[0], bytes[1], bytes[2], bytes[3];
        at := at + 4;
        left := left - 1;
        if left == 0 {
          break;
        }
      }
    }

    /** The full buffer goes through the compression function. */
    method TransformBuffer()
      requires input.Length == 64
      modifies this`buf, input
      ensures buf == Compress(old(buf), old(input[..])) && input[..] == old(input[..])
    {
      ByteReverse(16);
      TransformAgrees(buf, Words(input[..]));
      buf := Transform(buf, Words(input[..]));
    }

    method CountBits(len: nat)
      requires Valid() && len < TWO64
      modifies this`bits0, this`bits1
      ensures bits0 < TWO32 && bits1 < TWO32
      ensures bits0 + TWO32 * bits1 == 8 * (|fed| + len) % TWO64
    {
      var t := bits0;
      bits0 := (t + len % TWO32 * 8 % TWO32) % TWO32;
      if bits0 < t {
        bits1 := (bits1 + 1) % TWO32;
      }
      bits1 := (bits1 + len / 0x2000_0000 % TWO32) % TWO32;
      BitCountAdds(t, old(bits1), bits0, bits1, |fed|, len);
    }

    /** Update's loop over the whole blocks of the data. */
    method ProcessBlocks(data: Message, start: nat, ghost m: Message) returns (pos: nat)
      requires start <= |data| && (|m| + start) % 64 == 0 && input.Length == 64
      requires buf == Chained(INITIAL, m + data[..start])
      modifies this`buf, input
      ensures pos <= |data| && |data| - pos < 64 && (|m| + pos) % 64 == 0
      ensures buf == Chained(INITIAL, m + data[..pos])
    {
      hide Chained, Compress;
      pos := start;
      while |data| - pos >= 64
        invariant pos <= |data| && (|m| + pos) % 64 == 0
        invariant buf == Chained(INITIAL, m + data[..pos])
      {
        ghost var done := m + data[..pos];
        var block := data[pos..pos + 64];
        Memcpy(input, 0, block);
        WholeAndTail(done);
        assert input[..] == [] + block;
        ChainFilled(done, block, input[..]);
        assert data[..pos + 64] == data[..pos] + block;
        Associative(m, data[..pos], block);
        TransformBuffer();
        pos := pos + 64;
      }
    }

    method Update(data: Message)
      requires Valid() && |data| < TWO64
      modifies this, input
      ensures Valid() && fed == old(fed) + data
    {
      hide Chained, Compress, Whole, Tail;
      ghost var m := fed;
      LowWordCounts(bits0, bits1, |m|);
      var t := bits0 / 8 % 64;    // bytes already in the buffer
      CountBits(|data|);
      fed := m + data;
      var pos := 0;
      if t != 0 {
        var free := 64 - t;
        if |data| < free {
          Memcpy(input, t, data);
          TailGrows(m, data);
          return;
        }
        Memcpy(input, t, data[..free]);
        assert input[..] == Tail(m) + data[..free];
        ChainFilled(m, data[..free], input[..]);
        TransformBuffer();
        pos := free;
      } else {
        WholeAndTail(m);
        assert m + data[..0] == m;
      }
      pos := ProcessBlocks(data, pos, m);
      Memcpy(input, 0, data[pos..]);
      TailLeft(m, data, pos);
    }

    /** Final's padding, up to the place of the length. */
    method Pad()
      requires Valid()
      modifies this`buf, input
      ensures Chained(INITIAL, Padded(fed)) == Compress(buf, input[..56] + LengthBytes(|fed|))
    {
      hide Chained, Compress, NumberBytes, LengthBytes, Zeros, Whole, Tail;
      ghost var m := fed;
      LowWordCounts(bits0, bits1, |m|);
      var count := bits0 / 8 % 64;
      Memcpy(input, count, [0x80]);
      assert input[..count + 1] == Tail(m) + [0x80];
      var left := 64 - 1 - count;
      if left < 8 {
        Memcpy(input, count + 1, Zeros(left));
        ghost var first := input[..];
        assert first == Tail(m) + [0x80] + Zeros(left);
        TransformBuffer();
        Memcpy(input, 0, Zeros(56));
        assert input[..56] == Zeros(56);
        TwoBlockPadding(m, first, Zeros(56) + LengthBytes(|m|));
      } else {
        Memcpy(input, count + 1, Zeros(left - 8));
        assert input[..56] == Tail(m) + [0x80] + Zeros(left - 8);
        OneBlockPadding(m, input[..56] + LengthBytes(|m|));
      }
    }

    /** Pads, adds the length and gives the digest; the context is used up. */
    method Final() returns (digest: Message)
      requires Valid()
      modifies this, input
      ensures digest == Digest(old(fed))
    {
      hide Chained, Compress, NumberBytes, LengthBytes, Padded;
      LengthFromWords(|fed|, bits0, bits1);
      Pad();
      ByteReverse(14);
      ghost var front := input[..56];
      Memcpy(input, 56, NumberBytes(bits0));
      Memcpy(input, 60, NumberBytes(bits1));
      assert input[..] == front + LengthBytes(|fed|);
      ghost var before := buf;
      TransformAgrees(buf, Words(input[..]));
      buf := Transform(buf, Words(input[..]));
      CompressIs(before, input[..]);
      digest := QuadBytes(buf);
    }
  }

  lemma CompressIs(q: Quad, block: Message)
    requires |block| == 64
    ensures Compress(q, block) == Compressed(q, Words(block))
  {
  }

  function Joined(chunks: seq<Message>): Message {
    if chunks == [] then [] else chunks[0] + Joined(chunks[1..])
  }

  /** Whatever way a message is cut into chunks, updating with them in turn gives the
      digest of the whole. */
  method DigestOfChunks(chunks: seq<Message>) returns (digest: Message)
    requires forall c | c in chunks :: |c| < TWO64
    ensures digest == Digest(Joined(chunks))
  {
    var context := new Context();
    for i := 0 to |chunks|
      invariant context.Valid() && fresh(context) && fresh(context.input)
      invariant context.fed + Joined(chunks[i..]) == Joined(chunks)
    {
      ghost var before := context.fed;
      assert chunks[i..][1..] == chunks[i + 1..];
      Associative(before, chunks[i], Joined(chunks[i + 1..]));
      context.Update(chunks[i]);
    }
    assert context.fed == Joined(chunks);
    digest := context.Final();
  }

  // The two shapes of the padding.

  lemma OneBlockPadding(m: Message, block: Message)
    requires |m| % 64 <= 55
    requires block == Tail(m) + [0x80] + Zeros(55 - |m| % 64) + LengthBytes(|m|)
    requires |block| == 64
    ensures Chained(INITIAL, Padded(m)) == Compress(Chained(INITIAL, Whole(m)), block)
  {
    hide Chained, Compress, NumberBytes, Whole, Tail;
    var r := |m| % 64;
    var fill := [0x80] + Zeros(55 - r) + LengthBytes(|m|);
    assert ZerosFor(|m|) == 55 - r;
    assert Padded(m) == m + fill && block == Tail(m) + fill;
    ChainFilled(m, fill, block);
  }

  lemma TwoBlockPadding(m: Message, first: Message, second: Message)
    requires |m| % 64 > 55
    requires first == Tail(m) + [0x80] + Zeros(63 - |m| % 64)
    requires second == Zeros(56) + LengthBytes(|m|)
    requires |first| == 64 && |second| == 64
    ensures Chained(INITIAL, Padded(m)) ==
            Compress(Compress(Chained(INITIAL, Whole(m)), first), second)
  {
    hide Chained, Compress, NumberBytes, Whole, Tail;
    var r := |m| % 64;
    var fill := [0x80] + Zeros(63 - r);
    assert ZerosFor(|m|) == 63 - r + 56;
    assert Zeros(63 - r + 56) == Zeros(63 - r) + Zeros(56);
    assert Padded(m) == (m + fill) + second && first == Tail(m) + fill;
    ChainFilled(m, fill, first);
    var done := m + fill;
    WholeAndTail(done);
    assert [] + second == second;
    ChainFilled(done, second, second);
  }

  lemma LengthFromWords(n: nat, lo: nat, hi: nat)
    requires lo < TWO32 && lo + TWO32 * hi == 8 * n % TWO64
    ensures LengthBytes(n) == NumberBytes(lo) + NumberBytes(hi)
  {
    hide NumberBytes;
    assert (lo + TWO32 * hi) % TWO32 == lo && (lo + TWO32 * hi) / TWO32 == hi;
  }

  lemma Associative(a: Message, b: Message, c: Message)
    ensures (a + b) + c == a + (b + c)
  {
  }

  /** Adding to a length modulo the block size. */
  lemma AddInBlock(a: nat, b: nat)
    ensures a % 64 + b < 64 ==> (a + b) % 64 == a % 64 + b
    ensures a % 64 + b == 64 ==> (a + b) % 64 == 0
  {
    var (q, r) := (a / 64, a % 64);
    assert a + b == 64 * q + (r + b);
  }

  lemma AddWholeBlocks(a: nat, b: nat)
    requires a % 64 == 0 && b < 64
    ensures (a + b) % 64 == b
  {
    AddInBlock(a, b);
  }

  /** Too few bytes to fill the buffer: they join the tail. */
  lemma TailGrows(m: Message, data: Message)
    requires |m| % 64 + |data| < 64
    ensures |m + data| % 64 == |m| % 64 + |data| && Tail(m + data) == Tail(m) + data
    ensures Whole(m + data) == Whole(m)
  {
    AddInBlock(|m|, |data|);
    SplitAt(m, data, |m| - |m| % 64);
  }

  lemma SplitAt(a: Message, b: Message, n: nat)
    requires n <= |a|
    ensures (a + b)[..n] == a[..n] && (a + b)[n..] == a[n..] + b
  {
  }

  /** The bytes that fill the buffer complete a block of the message. */
  lemma ChainFilled(m: Message, data: Message, block: Message)
    requires |m| % 64 + |data| == 64 && block == Tail(m) + data
    ensures (|m| + |data|) % 64 == 0
    ensures Chained(INITIAL, m + data) == Compress(Chained(INITIAL, Whole(m)), block)
  {
    hide Chained, Compress, Whole, Tail;
    AddInBlock(|m|, |data|);
    var (whole, tail) := (Whole(m), Tail(m));
    WholeAndTail(m);
    Associative(whole, tail, data);
    ChainedConcat(INITIAL, whole, block);
    ChainedBlock(Chained(INITIAL, whole), block);
  }

  lemma TailLeft(m: Message, data: Message, pos: nat)
    requires pos <= |data| && (|m| + pos) % 64 == 0 && |data| - pos < 64
    ensures var all := m + data;
            && |all| % 64 == |data| - pos && Tail(all) == data[pos..]
            && Whole(all) == m + data[..pos]
  {
    AddWholeBlocks(|m| + pos, |data| - pos);
    assert m + data == (m + data[..pos]) + data[pos..];
  }
}
