/**
 The byte format of pickles, independent of buffers: little-endian numbers, items
 laid out at 4-byte aligned positions, typed reads, and framing by a header that
 starts with the payload size.
 */
module PickleFormat {
  import opened Wrappers

  type Byte = b: int | 0 <= b < 256
  type Bytes = seq<Byte>

  const ALIGNMENT: nat := 4
  const SIZE_FIELD: nat := 4         // sizeof(Header)

  /** `i` rounded up to a multiple of `alignment`. */
  function AlignInt(i: nat, alignment: nat): nat
    requires alignment > 0
  {
    i + (alignment - i % alignment) % alignment
  }

  /** The least multiple not below `i`, for the two alignments in use. */
  lemma AlignIntIsLeast(i: nat, alignment: nat, j: nat)
    requires alignment == 4 || alignment == 64
    ensures var a := AlignInt(i, alignment);
            a % alignment == 0 && i <= a < i + alignment && (j % alignment == 0 && j >= i ==> a <= j)
  {
    if alignment == 4 {
      AlignTo4(i, j);
    } else {
      AlignTo64(i, j);
    }
  }

  lemma AlignTo4(i: nat, j: nat)
    ensures var a := AlignInt(i, 4);
            a % 4 == 0 && i <= a < i + 4 && (j % 4 == 0 && j >= i ==> a <= j)
  {
    var (q, r) := (i / 4, i % 4);
    assert AlignInt(i, 4) == if r == 0 then 4 * q else 4 * q + 4;
  }

  lemma AlignTo64(i: nat, j: nat)
    ensures var a := AlignInt(i, 64);
            a % 64 == 0 && i <= a < i + 64 && (j % 64 == 0 && j >= i ==> a <= j)
  {
    var (q, r) := (i / 64, i % 64);
    assert AlignInt(i, 64) == if r == 0 then 64 * q else 64 * q + 64;
  }

  function Aligned(i: nat): (a: nat)
    ensures a % 4 == 0 && i <= a < i + 4
  {
    AlignInt(i, ALIGNMENT)
  }

  // ----- Numbers -----

  function Pow256(width: nat): (p: nat)
    ensures p > 0
  {
    if width == 0 then 1 else 256 * Pow256(width - 1)
  }

  lemma Powers()
    ensures Pow256(2) == 0x1_0000 && Pow256(4) == 0x1_0000_0000 && Pow256(8) == 0x1_0000_0000_0000_0000
  {
    assert Pow256(1) == 256 && Pow256(3) == 0x100_0000;
    assert Pow256(5) == 0x100_0000_0000 && Pow256(6) == 0x1_0000_0000_0000 && Pow256(7) == 0x100_0000_0000_0000;
  }

  /** `x` in `width` bytes, least significant first; higher bytes are cut off. */
  function LittleEndian(x: nat, width: nat): (bytes: Bytes)
    ensures |bytes| == width
  {
    if width == 0 then [] else [x % 256] + LittleEndian(x / 256, width - 1)
  }

  function Number(bytes: Bytes): (x: nat)
    ensures x < Pow256(|bytes|)
  {
    if bytes == [] then 0 else bytes[0] + 256 * Number(bytes[1..])
  }

  lemma {:induction false} NumberOfLittleEndian(x: nat, width: nat)
    requires x < Pow256(width)
    ensures Number(LittleEndian(x, width)) == x
  {
    if width > 0 {
      NumberOfLittleEndian(x / 256, width - 1);
      assert LittleEndian(x, width)[1..] == LittleEndian(x / 256, width - 1);
    }
  }

  lemma {:induction false} LittleEndianOfNumber(bytes: Bytes)
    ensures LittleEndian(Number(bytes), |bytes|) == bytes
  {
    if bytes != [] {
      LittleEndianOfNumber(bytes[1..]);
      assert bytes == [bytes[0]] + bytes[1..];
    }
  }

  /** Byte `k` has the weight 256 to the power `k`. */
  lemma {:induction false} LittleEndianByte(x: nat, width: nat, k: nat)
    requires k < width
    ensures LittleEndian(x, width)[k] == x / Pow256(k) % 256
  {
    if k > 0 {
      LittleEndianByte(x / 256, width - 1, k - 1);
      assert LittleEndian(x, width)[k] == LittleEndian(x / 256, width - 1)[k - 1];
      DivideTwice(x, Pow256(k - 1));
    }
  }

  lemma DivideTwice(x: nat, b: nat)
    requires b > 0
    ensures x / 256 / b == x / (256 * b)
  {
    var (q, r) := (x / 256, x % 256);
    var (p, s) := (q / b, q % b);
    var t := b * p;
    assert x == 256 * t + (256 * s + r) && 256 * b * p == 256 * t;
    QuotientIs(x, 256 * b, p, 256 * s + r);
  }

  lemma QuotientIs(x: nat, d: nat, q: nat, r: nat)
    requires d > 0 && x == d * q + r && r < d
    ensures x / d == q
  {
    var p := x / d;
    LessTimes(d, p, q);
    LessTimes(d, q, p);
  }

  lemma {:induction false} LessTimes(d: nat, p: int, q: int)
    ensures p < q ==> d * p + d <= d * q
    decreases q - p
  {
    if p + 1 < q {
      LessTimes(d, p, q - 1);
      assert d * q == d * (q - 1) + d;
    } else if p + 1 == q {
      assert d * q == d * p + d;
    }
  }

  /** Numbers as bytes, and negative ones in two's complement. */
  lemma NumberExamples()
    ensures LittleEndian(0x0102_0304, 4) == [4, 3, 2, 1] && Number([4, 3, 2, 1]) == 0x0102_0304
    ensures FitsSigned(-2, 4) && FromSigned(-2, 4) == 0xffff_fffe && ToSigned(0xffff_fffe, 4) == -2
  {
    Powers();
    LittleEndianByte(0x0102_0304, 4, 0);
    LittleEndianByte(0x0102_0304, 4, 1);
    LittleEndianByte(0x0102_0304, 4, 2);
    LittleEndianByte(0x0102_0304, 4, 3);
    assert Pow256(0) == 1 && Pow256(1) == 0x100 && Pow256(3) == 0x100_0000;
    hide LittleEndian, Number;
    assert LittleEndian(0x0102_0304, 4) == [4, 3, 2, 1];
    NumberOfLittleEndian(0x0102_0304, 4);
  }

  predicate FitsSigned(i: int, width: nat) {
    -(Pow256(width) / 2) <= i < Pow256(width) / 2
  }

  /** Two's complement. */
  function FromSigned(i: int, width: nat): nat
    requires FitsSigned(i, width)
  {
    if i < 0 then i + Pow256(width) else i
  }

  function ToSigned(x: nat, width: nat): int {
    if x < Pow256(width) / 2 then x else x - Pow256(width)
  }

  // ----- Layout -----

  /** From position `pos` on, `payload` holds exactly `items`, each but the last
      followed by filling up to the next aligned position. */
  predicate LaidOut(payload: Bytes, pos: nat, items: seq<Bytes>)
    decreases |items|
  {
    if items == [] then pos == Aligned(|payload|)
    else
      && pos + |items[0]| <= |payload|
      && payload[pos..pos + |items[0]|] == items[0]
      && (|items| == 1 ==> pos + |items[0]| == |payload|)
      && LaidOut(payload, pos + Aligned(|items[0]|), items[1..])
  }

  /** What one write does: fill up to an aligned position, then the data. */
  predicate Appends(payload: Bytes, data: Bytes, payload': Bytes) {
    && |payload'| == Aligned(|payload|) + |data|
    && payload'[..|payload|] == payload
    && payload'[Aligned(|payload|)..] == data
  }

  lemma AlignedShift(pos: nat, n: nat)
    requires pos % 4 == 0
    ensures Aligned(pos + n) == pos + Aligned(n)
  {
    var (q, r) := (pos / 4, n % 4);
    assert pos + n == 4 * (q + n / 4) + r;
    assert (pos + n) % 4 == r;
  }

  lemma FourIsAligned()
    ensures Aligned(0) == 0 && Aligned(4) == 4
  {
  }

  lemma {:induction false} LaidOutIsAligned(payload: Bytes, pos: nat, items: seq<Bytes>)
    requires LaidOut(payload, pos, items)
    ensures pos % 4 == 0
    decreases |items|
  {
    hide AlignInt;
    if items != [] {
      LaidOutIsAligned(payload, pos + Aligned(|items[0]|), items[1..]);
    }
  }

  lemma SliceOfPrefix(p: Bytes, p': Bytes, n: nat, from: nat, to: nat)
    requires from <= to <= n <= |p| && n <= |p'| && p'[..n] == p[..n]
    ensures p'[from..to] == p[from..to]
  {
    assert p[from..to] == p[..n][from..to] && p'[from..to] == p'[..n][from..to];
  }

  lemma {:induction false} AppendLaysOut(payload: Bytes, pos: nat, items: seq<Bytes>, data: Bytes, payload': Bytes)
    requires LaidOut(payload, pos, items) && Appends(payload, data, payload')
    ensures LaidOut(payload', pos, items + [data])
    decreases |items|
  {
    hide Aligned;
    var all := items + [data];
    assert payload[..|payload|] == payload;
    if items == [] {
      AlignedShift(pos, |data|);
      assert all[1..] == [] && payload'[pos..] == payload'[pos..pos + |data|];
    } else {
      var first := items[0];
      AppendLaysOut(payload, pos + Aligned(|first|), items[1..], data, payload');
      assert all[0] == first && all[1..] == items[1..] + [data];
      SliceOfPrefix(payload, payload', |payload|, pos, pos + |first|);
    }
  }

  /** Overwriting the data of the last item in place. */
  lemma {:induction false} LastItemReplaced(payload: Bytes, pos: nat, items: seq<Bytes>, data: Bytes,
                                            data': Bytes, payload': Bytes)
    requires LaidOut(payload, pos, items + [data]) && |data'| == |data| <= |payload| == |payload'|
    requires payload'[..|payload| - |data|] == payload[..|payload| - |data|]
    requires payload'[|payload| - |data|..] == data'
    ensures LaidOut(payload', pos, items + [data'])
    decreases |items|
  {
    hide Aligned;
    var (all, replaced) := (items + [data], items + [data']);
    var at := |payload| - |data|;
    if items == [] {
      assert all[1..] == [] && replaced[1..] == [] && pos == at;
      assert payload'[pos..] == payload'[pos..pos + |data'|];
    } else {
      var (first, next) := (items[0], pos + Aligned(|items[0]|));
      assert all[0] == first && all[1..] == items[1..] + [data];
      assert replaced[0] == first && replaced[1..] == items[1..] + [data'];
      LastItemEnds(payload, next, items[1..], data);
      LastItemReplaced(payload, next, items[1..], data, data', payload');
      SliceOfPrefix(payload, payload', at, pos, pos + |first|);
    }
  }

  lemma {:induction false} LastItemEnds(payload: Bytes, pos: nat, items: seq<Bytes>, data: Bytes)
    requires LaidOut(payload, pos, items + [data])
    ensures pos + |data| <= |payload| && payload[|payload| - |data|..] == data
    decreases |items|
  {
    hide Aligned;
    var all := items + [data];
    if items == [] {
      assert all[0] == data;
    } else {
      assert all[0] == items[0] && all[1..] == items[1..] + [data];
      LastItemEnds(payload, pos + Aligned(|items[0]|), items[1..], data);
    }
  }

  /** Shrinking the data of a final length-prefixed item. */
  lemma {:induction false} TrimLaysOut(payload: Bytes, pos: nat, items: seq<Bytes>, data: Bytes,
                                       n: nat, payload': Bytes)
    requires n <= |data| < Pow256(4)
    requires LaidOut(payload, pos, items + [LittleEndian(|data|, 4), data])
    requires |payload'| == |payload| - |data| + n && |payload| >= |data| + 4
    requires var at := |payload| - |data| - 4;
             payload'[..at] == payload[..at] && payload'[at..at + 4] == LittleEndian(n, 4)
             && payload'[at + 4..] == payload[at + 4..at + 4 + n]
    ensures LaidOut(payload', pos, items + [LittleEndian(n, 4), data[..n]])
    decreases |items|
  {
    hide Aligned, LittleEndian;
    var (len, len') := (LittleEndian(|data|, 4), LittleEndian(n, 4));
    var (all, trimmed) := (items + [len, data], items + [len', data[..n]]);
    var at := |payload| - |data| - 4;
    if items == [] {
      assert all == [len, data] && trimmed == [len', data[..n]];
      TrimLastItem(payload, pos, data, n, payload');
    } else {
      var (first, next) := (items[0], pos + Aligned(|items[0]|));
      assert all[0] == first && all[1..] == items[1..] + [len, data];
      assert trimmed[0] == first && trimmed[1..] == items[1..] + [len', data[..n]];
      LastItemsEnd(payload, next, items[1..], data);
      TrimLaysOut(payload, next, items[1..], data, n, payload');
      SliceOfPrefix(payload, payload', at, pos, pos + |first|);
    }
  }

  lemma TrimLastItem(payload: Bytes, pos: nat, data: Bytes, n: nat, payload': Bytes)
    requires n <= |data| < Pow256(4)
    requires LaidOut(payload, pos, [LittleEndian(|data|, 4), data])
    requires |payload'| == |payload| - |data| + n && |payload| >= |data| + 4
    requires var at := |payload| - |data| - 4;
             payload'[at..at + 4] == LittleEndian(n, 4) && payload'[at + 4..] == payload[at + 4..at + 4 + n]
    ensures LaidOut(payload', pos, [LittleEndian(n, 4), data[..n]])
  {
    hide Aligned, LittleEndian, LaidOut;
    var (len, len') := (LittleEndian(|data|, 4), LittleEndian(n, 4));
    LaidOutIsAligned(payload, pos, [len, data]);
    LastTwoItems(payload, pos, len, data);
    assert payload[pos + 4..pos + 4 + n] == payload[pos + 4..][..n];
    LastTwoItems(payload', pos, len', data[..n]);
  }

  lemma LastTwoItems(payload: Bytes, pos: nat, len: Bytes, data: Bytes)
    requires |len| == 4 && pos % 4 == 0
    ensures LaidOut(payload, pos, [len, data]) <==>
            && pos + 4 + |data| == |payload|
            && payload[pos..pos + 4] == len && payload[pos + 4..] == data
  {
    hide Aligned;
    FourIsAligned();
    AlignedShift(pos + 4, |data|);
    assert [len, data][1..] == [data] && [data][1..] == [];
    var next := pos + 4;
    assert LaidOut(payload, next, [data]) <==>
           next + |data| == |payload| && payload[next..next + |data|] == data;
    assert next + |data| == |payload| ==> payload[next..next + |data|] == payload[next..];
    assert LaidOut(payload, pos, [len, data]) <==>
           next <= |payload| && payload[pos..next] == len && LaidOut(payload, next, [data]);
  }

  lemma {:induction false} LastItemsEnd(payload: Bytes, pos: nat, items: seq<Bytes>, data: Bytes)
    requires LaidOut(payload, pos, items + [LittleEndian(|data|, 4), data])
    ensures pos + 4 + |data| <= |payload|
    ensures |payload| >= |data| + 4
    ensures payload[|payload| - |data|..] == data
    ensures payload[|payload| - |data| - 4..|payload| - |data|] == LittleEndian(|data|, 4)
    decreases |items|
  {
    hide Aligned, LittleEndian;
    FourIsAligned();
    var all := items + [LittleEndian(|data|, 4), data];
    if items == [] {
      assert all == [LittleEndian(|data|, 4), data] && all[1..] == [data];
      assert LaidOut(payload, pos + 4, [data]);
    } else {
      assert all[0] == items[0] && all[1..] == items[1..] + [LittleEndian(|data|, 4), data];
      LastItemsEnd(payload, pos + Aligned(|items[0]|), items[1..], data);
    }
  }

  /** The length that stands in front of a variable buffer, as an `int`. */
  function BufferLength(payload: Bytes, at: nat): int
    requires at + 4 <= |payload|
  {
    ToSigned(Number(payload[at..at + 4]), 4)
  }

  predicate HoldsBuffer(payload: Bytes, at: nat) {
    at + 4 <= |payload| && at + 4 + BufferLength(payload, at) <= |payload|
  }

  /** The first `size` bytes of the payload, with the number `n` at a position. */
  function CutShort(payload: Bytes, at: nat, n: nat, size: nat): Bytes
    requires at + 4 <= size <= |payload|
  {
    payload[..at] + LittleEndian(n, 4) + payload[at + 4..size]
  }

  /** The payload with a shorter length in front of the buffer, and as much cut off
      its end. */
  function Trimmed(payload: Bytes, at: nat, n: nat): Bytes
    requires HoldsBuffer(payload, at) && n <= BufferLength(payload, at)
  {
    CutShort(payload, at, n, |payload| - (BufferLength(payload, at) - n))
  }

  /** A length that fits an `int` is read as it was written. */
  lemma SignedLength(n: nat)
    requires FitsSigned(n, 4)
    ensures n < Pow256(4) && ToSigned(Number(LittleEndian(n, 4)), 4) == n
  {
    Powers();
    NumberOfLittleEndian(n, 4);
  }

  /** If the buffer is the last item, the trimmed data is. */
  lemma TrimmedLast(payload: Bytes, items: seq<Bytes>, data: Bytes, n: nat)
    requires FitsSigned(|data|, 4) && n <= |data|
    requires LaidOut(payload, 0, items + [LittleEndian(|data|, 4), data])
    ensures |payload| >= |data| + 4
    ensures var at := |payload| - |data| - 4;
            && HoldsBuffer(payload, at) && BufferLength(payload, at) == |data|
            && LaidOut(Trimmed(payload, at, n), 0, items + [LittleEndian(n, 4), data[..n]])
  {
    hide LaidOut, LittleEndian, Number, ToSigned, Pow256;
    LastItemsEnd(payload, 0, items, data);
    SignedLength(|data|);
    var at: nat := |payload| - |data| - 4;
    var payload' := Trimmed(payload, at, n);
    assert payload'[..at] == payload[..at] && payload'[at..at + 4] == LittleEndian(n, 4);
    assert payload'[at + 4..] == payload[at + 4..at + 4 + n];
    TrimLaysOut(payload, 0, items, data, n, payload');
  }

  /** The room that items take, each with its filling. */
  function ItemsSize(items: seq<Bytes>): nat {
    if items == [] then 0 else Aligned(|items[0]|) + ItemsSize(items[1..])
  }

  lemma {:induction false} LaidOutSize(payload: Bytes, pos: nat, items: seq<Bytes>)
    requires LaidOut(payload, pos, items)
    ensures Aligned(|payload|) == pos + ItemsSize(items)
    decreases |items|
  {
    hide Aligned;
    if items != [] {
      LaidOutSize(payload, pos + Aligned(|items[0]|), items[1..]);
    }
  }

  lemma {:induction false} ItemsSizeConcat(a: seq<Bytes>, b: seq<Bytes>)
    ensures ItemsSize(a + b) == ItemsSize(a) + ItemsSize(b)
  {
    if a == [] {
      assert a + b == b;
    } else {
      ItemsSizeConcat(a[1..], b);
      assert (a + b)[1..] == a[1..] + b;
    }
  }

  /** How far items reach: the last one without filling. */
  function Extent(items: seq<Bytes>): nat {
    if items == [] then 0
    else if |items| == 1 then |items[0]|
    else Aligned(|items[0]|) + Extent(items[1..])
  }

  lemma {:induction false} LaidOutExtent(payload: Bytes, pos: nat, items: seq<Bytes>)
    requires LaidOut(payload, pos, items) && items != []
    ensures |payload| == pos + Extent(items)
    decreases |items|
  {
    hide Aligned;
    if |items| > 1 {
      LaidOutExtent(payload, pos + Aligned(|items[0]|), items[1..]);
    }
  }

  lemma {:induction false} ExtentAppend(items: seq<Bytes>, data: Bytes)
    ensures Extent(items + [data]) == ItemsSize(items) + |data|
  {
    hide Aligned;
    var all := items + [data];
    if items == [] {
      assert all == [data];
    } else {
      ExtentAppend(items[1..], data);
      assert all[0] == items[0] && all[1..] == items[1..] + [data];
    }
  }

  lemma {:induction false} ExtentBound(items: seq<Bytes>)
    ensures Extent(items) <= ItemsSize(items) && ItemsSize(items) % 4 == 0
  {
    hide AlignInt;
    if items != [] {
      ExtentBound(items[1..]);
      assert |items| == 1 ==> ItemsSize(items[1..]) == 0;
    }
  }

  // ----- The exact bytes -----

  /** The zeros between `n` bytes and the next aligned position. */
  function Filling(n: nat): (zeros: Bytes)
    ensures |zeros| == Aligned(n) - n && forall i | 0 <= i < |zeros| :: zeros[i] == 0
  {
    seq(Aligned(n) - n, _ => 0)
  }

  /** The bytes that items come to, written one after the other into an empty payload. */
  function Laid(items: seq<Bytes>): Bytes {
    if items == [] then [] else
    var front := Laid(items[..|items| - 1]);
    front + Filling(|front|) + items[|items| - 1]
  }

  lemma LaidAppend(items: seq<Bytes>, data: Bytes)
    ensures Laid(items + [data]) == Laid(items) + Filling(|Laid(items)|) + data
    ensures |Laid(items + [data])| == Aligned(|Laid(items)|) + |data|
  {
    assert (items + [data])[..|items|] == items;
  }

  lemma {:induction false} LaidGrows(items: seq<Bytes>, more: seq<Bytes>)
    ensures |Laid(items)| <= |Laid(items + more)|
  {
    hide Laid;
    if more == [] {
      assert items + more == items;
    } else {
      var n := |more| - 1;
      LaidGrows(items, more[..n]);
      LaidAppend(items + more[..n], more[n]);
      assert items + more[..n] + [more[n]] == items + more;
    }
  }

  /** These bytes are as long as the items reach. */
  lemma {:induction false} LaidSize(items: seq<Bytes>)
    ensures |Laid(items)| == Extent(items) && Aligned(|Laid(items)|) == ItemsSize(items)
  {
    hide Laid, Aligned, Extent, ItemsSize;
    if items == [] {
      NothingLaid();
    } else {
      var n := |items| - 1;
      LaidSize(items[..n]);
      assert items == items[..n] + [items[n]];
      LaidAppend(items[..n], items[n]);
      ExtentAppend(items[..n], items[n]);
      ItemsSizeAppend(items[..n], items[n]);
      ExtentBound(items[..n]);
      AlignedShift(ItemsSize(items[..n]), |items[n]|);
    }
  }

  lemma NothingLaid()
    ensures Laid([]) == [] && Extent([]) == 0 && ItemsSize([]) == 0 && Aligned(0) == 0 && Filling(0) == []
  {
  }

  // ----- Sizes beyond 32 bits -----

  const WRAP: nat := 0x1_0000_0000

  /** What is left of a size in the 32 bits it is stored in. */
  function Stored(size: nat): (s: nat)
    ensures s <= size && s < WRAP && (size < WRAP ==> s == size)
  {
    size % WRAP
  }

  /** What one write does when the size it stores is cut to 32 bits. */
  ghost predicate AppendsWrapped(payload: Bytes, data: Bytes, payload': Bytes) {
    exists full :: Appends(payload, data, full) && payload' == full[..Stored(|full|)]
  }

  lemma CutToStored(payload: Bytes, data: Bytes, full: Bytes)
    requires Appends(payload, data, full)
    ensures AppendsWrapped(payload, data, full[..Stored(|full|)])
  {
    hide Appends;
  }

  /** The payload holds the items, unless their size has outgrown 32 bits; memory ends
      at `limit`. */
  predicate Tracks(payload: Bytes, items: seq<Bytes>, limit: nat) {
    && Aligned(|payload|) <= ItemsSize(items)
    && (limit < WRAP || Extent(items) < WRAP ==> LaidOut(payload, 0, items))
  }

  lemma AppendTracks(payload: Bytes, items: seq<Bytes>, data: Bytes, payload': Bytes, limit: nat)
    requires Tracks(payload, items, limit) && AppendsWrapped(payload, data, payload')
    requires Aligned(|payload|) + |data| <= limit
    ensures Tracks(payload', items + [data], limit)
  {
    hide Aligned, LaidOut, Appends, ItemsSize, Extent;
    var full :| Appends(payload, data, full) && payload' == full[..Stored(|full|)];
    AppendsSize(payload, data, full);
    ItemsSizeAppend(items, data);
    ExtentBound(items);
    ExtentAppend(items, data);
    AlignedGrows(|payload'|, ItemsSize(items) + |data|);
    AlignedShift(ItemsSize(items), |data|);
    if limit < WRAP || Extent(items + [data]) < WRAP {
      LaidOutSize(payload, 0, items);
      assert |full| < WRAP && full[..|full|] == full;
      AppendLaysOut(payload, 0, items, data, full);
    }
  }

  lemma TracksSize(payload: Bytes, items: seq<Bytes>, limit: nat)
    requires Tracks(payload, items, limit)
    ensures Aligned(|payload|) <= ItemsSize(items)
  {
  }

  lemma AppendsSize(payload: Bytes, data: Bytes, full: Bytes)
    requires Appends(payload, data, full)
    ensures |full| == Aligned(|payload|) + |data|
  {
  }

  lemma ItemsSizeAppend(items: seq<Bytes>, data: Bytes)
    ensures ItemsSize(items + [data]) == ItemsSize(items) + Aligned(|data|)
  {
    hide Aligned;
    ItemsSizeConcat(items, [data]);
    assert |[data][1..]| == 0;
  }

  lemma AlignedGrows(n: nat, m: nat)
    requires n <= m
    ensures Aligned(n) <= Aligned(m)
  {
    AlignIntIsLeast(n, 4, Aligned(m));
  }

  // ----- Typed values -----

  datatype Value =
    | Bool(b: bool)
    | Int(i: int)
    | UInt16(n: nat)
    | UInt32(n: nat)
    | Int64(i: int)             // also `long`
    | UInt64(n: nat)            // also `size_t`
    | Raw(bytes: Bytes)
    | Str(bytes: Bytes)
    | Data(bytes: Bytes)

  /** What a reader must know: the type, and for raw bytes their number. */
  datatype Kind = BoolKind | IntKind | UInt16Kind | UInt32Kind | Int64Kind | UInt64Kind
                | RawKind(length: int) | StrKind | DataKind

  function KindOf(v: Value): Kind {
    match v
    case Bool(_) => BoolKind
    case Int(_) => IntKind
    case UInt16(_) => UInt16Kind
    case UInt32(_) => UInt32Kind
    case Int64(_) => Int64Kind
    case UInt64(_) => UInt64Kind
    case Raw(bytes) => RawKind(|bytes|)
    case Str(_) => StrKind
    case Data(_) => DataKind
  }

  /** The range of the C++ type; lengths are `int`. */
  predicate Fits(v: Value) {
    match v
    case Bool(_) => true
    case Int(i) => FitsSigned(i, 4)
    case UInt16(n) => n < Pow256(2)
    case UInt32(n) => n < Pow256(4)
    case Int64(i) => FitsSigned(i, 8)
    case UInt64(n) => n < Pow256(8)
    case Raw(bytes) => FitsSigned(|bytes|, 4)
    case Str(bytes) => FitsSigned(|bytes|, 4)
    case Data(bytes) => FitsSigned(|bytes|, 4)
  }

  /** The ranges in numbers. */
  lemma RangesOfTypes(i: int, n: nat)
    ensures Fits(Int(i)) <==> -0x8000_0000 <= i <= 0x7fff_ffff
    ensures Fits(Int64(i)) <==> -0x8000_0000_0000_0000 <= i <= 0x7fff_ffff_ffff_ffff
    ensures Fits(UInt16(n)) <==> n <= 0xffff
    ensures Fits(UInt32(n)) <==> n <= 0xffff_ffff
    ensures Fits(UInt64(n)) <==> n <= 0xffff_ffff_ffff_ffff
    ensures forall b :: Fits(Bool(b))
    ensures forall bytes: Bytes | Fits(Raw(bytes)) || Fits(Str(bytes)) || Fits(Data(bytes)) ::
              |bytes| <= 0x7fff_ffff
    ensures forall bytes: Bytes | |bytes| <= 0x7fff_ffff :: Fits(Raw(bytes)) && Fits(Str(bytes)) && Fits(Data(bytes))
  {
    Powers();
  }

  /** What is written for a value: one item, or a length and the bytes. */
  function Items(v: Value): (items: seq<Bytes>)
    requires Fits(v)
    ensures |items| >= 1
  {
    match v
    case Bool(b) => [LittleEndian(if b then 1 else 0, 4)]
    case Int(i) => [LittleEndian(FromSigned(i, 4), 4)]
    case UInt16(n) => [LittleEndian(n, 2)]
    case UInt32(n) => [LittleEndian(n, 4)]
    case Int64(i) => [LittleEndian(FromSigned(i, 8), 8)]
    case UInt64(n) => [LittleEndian(n, 8)]
    case Raw(bytes) => [bytes]
    case Str(bytes) => [LittleEndian(|bytes|, 4), bytes]
    case Data(bytes) => [LittleEndian(|bytes|, 4), bytes]
  }

  predicate AllFit(values: seq<Value>) {
    forall i | 0 <= i < |values| :: Fits(values[i])
  }

  function AllItems(values: seq<Value>): seq<Bytes>
    requires AllFit(values)
  {
    if values == [] then [] else Items(values[0]) + AllItems(values[1..])
  }

  function KindsOf(values: seq<Value>): seq<Kind> {
    if values == [] then [] else [KindOf(values[0])] + KindsOf(values[1..])
  }

  /** A text, a short number and a negative one. */
  function Example(): seq<Value> {
    [Str([0x61, 0x62, 0x63]), UInt16(0x0102), Int(-2)]
  }

  lemma ExampleNumbers()
    ensures LittleEndian(3, 4) == [3, 0, 0, 0] && LittleEndian(0x0102, 2) == [2, 1]
    ensures LittleEndian(16, 4) == [16, 0, 0, 0]
    ensures FitsSigned(-2, 4) && LittleEndian(FromSigned(-2, 4), 4) == [0xfe, 0xff, 0xff, 0xff]
  {
    Powers();
    assert LittleEndian(0, 3) == [0, 0, 0] && LittleEndian(1, 1) == [1];
    assert LittleEndian(0xff, 1) == [0xff] && LittleEndian(0xffff, 2) == [0xff, 0xff];
    assert LittleEndian(0xff_ffff, 3) == [0xff, 0xff, 0xff];
  }

  lemma ExampleItems()
    ensures AllFit(Example())
    ensures AllItems(Example()) == [[3, 0, 0, 0], [0x61, 0x62, 0x63], [2, 1], [0xfe, 0xff, 0xff, 0xff]]
  {
    ExampleNumbers();
    Powers();
    var values := Example();
    hide LittleEndian, Pow256, FromSigned;
    assert values[1..] == [UInt16(0x0102), Int(-2)] && values[2..] == [Int(-2)];
    assert AllItems(values[3..]) == [];
    assert Items(values[0]) == [[3, 0, 0, 0], [0x61, 0x62, 0x63]];
    assert values[1..][1..] == values[2..] && values[2..][1..] == values[3..];
  }

  lemma AlignedIs(n: nat, zeros: nat, k: nat)
    requires zeros < 4 && n + zeros == 4 * k
    ensures Aligned(n) == n + zeros
  {
    AlignIntIsLeast(n, 4, 4 * k);
  }

  /** One item more, where the filling is written out. */
  lemma LaidNext(items: seq<Bytes>, before: Bytes, zeros: Bytes, data: Bytes, k: nat)
    requires Laid(items) == before && |zeros| < 4 && |before| + |zeros| == 4 * k
    requires forall i | 0 <= i < |zeros| :: zeros[i] == 0
    ensures Laid(items + [data]) == before + zeros + data
  {
    LaidAppend(items, data);
    AlignedIs(|before|, |zeros|, k);
    hide Laid, Aligned;
    assert Filling(|before|) == zeros;
  }

  lemma LaidNothing()
    ensures Laid([]) == []
  {
  }

  lemma FourLaid(a: Bytes, b: Bytes, c: Bytes, d: Bytes)
    requires |a| == 4 && |b| == 3 && |c| == 2 && |d| == 4
    ensures Laid([a] + [b] + [c] + [d]) == a + b + [0] + c + [0, 0] + d
  {
    hide *;
    LaidNothing();
    LaidNext([], [], [], a, 0);
    assert [] + [a] == [a] && [] + [] + a == a;
    LaidNext([a], a, [], b, 1);
    assert a + [] + b == a + b;
    LaidNext([a] + [b], a + b, [0], c, 2);
    LaidNext([a] + [b] + [c], a + b + [0] + c, [0, 0], d, 3);
  }

  lemma LastOfFour(a: Bytes, b: Bytes, c: Bytes, d: Bytes)
    ensures [a, b, c, d] == [a] + [b] + [c] + [d]
  {
  }

  /** The example in bytes: a length, the text with one zero behind it, the number with
      two, the two's complement. */
  lemma ExampleBytes()
    ensures AllFit(Example()) && ItemsSize(AllItems(Example())) == 16
    ensures Laid(AllItems(Example())) ==
            [3, 0, 0, 0] + [0x61, 0x62, 0x63] + [0] + [2, 1] + [0, 0] + [0xfe, 0xff, 0xff, 0xff]
  {
    hide *;
    ExampleItems();
    var (a, b, c, d) := ([3, 0, 0, 0], [0x61, 0x62, 0x63], [2, 1], [0xfe, 0xff, 0xff, 0xff]);
    LastOfFour(a, b, c, d);
    FourLaid(a, b, c, d);
    LaidSize([a, b, c, d]);
    AlignedIsFixed(16);
  }

  // ----- Reading -----

  predicate HasRoom(payload: Bytes, pos: nat, length: int) {
    length >= 0 && pos + length <= |payload|
  }

  /** The bytes at a position and where the iterator goes, if there is room. */
  function ReadAt(payload: Bytes, pos: nat, length: int): (Option<Bytes>, nat) {
    if HasRoom(payload, pos, length) then (Some(payload[pos..pos + length]), pos + Aligned(length))
    else (None, pos)
  }

  function ReadUnsigned(payload: Bytes, pos: nat, width: nat): (Option<nat>, nat) {
    var (bytes, next) := ReadAt(payload, pos, width);
    (if bytes.Some? then Some(Number(bytes.value)) else None, next)
  }

  function ReadSigned(payload: Bytes, pos: nat, width: nat): (Option<int>, nat) {
    var (n, next) := ReadUnsigned(payload, pos, width);
    (if n.Some? then Some(ToSigned(n.value, width)) else None, next)
  }

  function ReadPrefixed(payload: Bytes, pos: nat): (Option<Bytes>, nat) {
    var (length, next) := ReadSigned(payload, pos, 4);
    if length.None? || length.value < 0 then (None, next) else ReadAt(payload, next, length.value)
  }

  function Read(payload: Bytes, pos: nat, kind: Kind): (Option<Value>, nat) {
    match kind
    case BoolKind =>
      var (x, next) := ReadSigned(payload, pos, 4);
      (if x.Some? then Some(Bool(x.value != 0)) else None, next)
    case IntKind =>
      var (x, next) := ReadSigned(payload, pos, 4);
      (if x.Some? then Some(Int(x.value)) else None, next)
    case UInt16Kind =>
      var (x, next) := ReadUnsigned(payload, pos, 2);
      (if x.Some? then Some(UInt16(x.value)) else None, next)
    case UInt32Kind =>
      var (x, next) := ReadUnsigned(payload, pos, 4);
      (if x.Some? then Some(UInt32(x.value)) else None, next)
    case Int64Kind =>
      var (x, next) := ReadSigned(payload, pos, 8);
      (if x.Some? then Some(Int64(x.value)) else None, next)
    case UInt64Kind =>
      var (x, next) := ReadUnsigned(payload, pos, 8);
      (if x.Some? then Some(UInt64(x.value)) else None, next)
    case RawKind(length) =>
      var (x, next) := ReadAt(payload, pos, length);
      (if x.Some? then Some(Raw(x.value)) else None, next)
    case StrKind =>
      var (x, next) := ReadPrefixed(payload, pos);
      (if x.Some? then Some(Str(x.value)) else None, next)
    case DataKind =>
      var (x, next) := ReadPrefixed(payload, pos);
      (if x.Some? then Some(Data(x.value)) else None, next)
  }

  function ReadAll(payload: Bytes, pos: nat, kinds: seq<Kind>): (Option<seq<Value>>, nat)
    decreases |kinds|
  {
    if kinds == [] then (Some([]), pos) else
    var (v, next) := Read(payload, pos, kinds[0]);
    if v.None? then (None, next) else
    var (rest, end) := ReadAll(payload, next, kinds[1..]);
    (if rest.Some? then Some([v.value] + rest.value) else None, end)
  }

  // ----- Reading back what was written -----

  lemma ReadsItem(payload: Bytes, pos: nat, items: seq<Bytes>)
    requires items != [] && LaidOut(payload, pos, items)
    ensures ReadAt(payload, pos, |items[0]|) == (Some(items[0]), pos + Aligned(|items[0]|))
    ensures LaidOut(payload, pos + Aligned(|items[0]|), items[1..])
  {
  }

  lemma ReadsUnsigned(payload: Bytes, pos: nat, n: nat, width: nat, rest: seq<Bytes>)
    requires n < Pow256(width) && LaidOut(payload, pos, [LittleEndian(n, width)] + rest)
    ensures ReadUnsigned(payload, pos, width) == (Some(n), pos + Aligned(width))
    ensures LaidOut(payload, pos + Aligned(width), rest)
  {
    hide LaidOut, LittleEndian, Number, Aligned;
    ReadsItem(payload, pos, [LittleEndian(n, width)] + rest);
    NumberOfLittleEndian(n, width);
    assert ([LittleEndian(n, width)] + rest)[1..] == rest;
  }

  lemma PowersAreEven(width: nat)
    requires width > 0
    ensures Pow256(width) % 2 == 0
  {
  }

  lemma ReadsSigned(payload: Bytes, pos: nat, i: int, width: nat, rest: seq<Bytes>)
    requires width > 0 && FitsSigned(i, width)
    requires LaidOut(payload, pos, [LittleEndian(FromSigned(i, width), width)] + rest)
    ensures ReadSigned(payload, pos, width) == (Some(i), pos + Aligned(width))
    ensures LaidOut(payload, pos + Aligned(width), rest)
  {
    hide LaidOut, LittleEndian, Number, Aligned, ReadUnsigned, Pow256;
    PowersAreEven(width);
    ReadsUnsigned(payload, pos, FromSigned(i, width), width, rest);
  }

  lemma ReadsPrefixed(payload: Bytes, pos: nat, bytes: Bytes, rest: seq<Bytes>)
    requires FitsSigned(|bytes|, 4)
    requires LaidOut(payload, pos, [LittleEndian(|bytes|, 4), bytes] + rest)
    ensures var next := pos + Aligned(4) + Aligned(|bytes|);
            ReadPrefixed(payload, pos) == (Some(bytes), next) && LaidOut(payload, next, rest)
  {
    hide LaidOut, LittleEndian, Number, Aligned, ReadSigned, Pow256;
    assert [LittleEndian(|bytes|, 4), bytes] + rest == [LittleEndian(|bytes|, 4)] + ([bytes] + rest);
    ReadsSigned(payload, pos, |bytes|, 4, [bytes] + rest);
    ReadsItem(payload, pos + Aligned(4), [bytes] + rest);
    assert ([bytes] + rest)[1..] == rest;
  }

  lemma ReadsBack(payload: Bytes, pos: nat, v: Value, rest: seq<Bytes>)
    requires Fits(v) && LaidOut(payload, pos, Items(v) + rest)
    ensures var (r, next) := Read(payload, pos, KindOf(v));
            r == Some(v) && LaidOut(payload, next, rest)
  {
    hide LaidOut, LittleEndian, Aligned, ReadSigned, ReadUnsigned, ReadPrefixed, Number;
    match v
    case Bool(b) =>
      Powers();
      ReadsSigned(payload, pos, if b then 1 else 0, 4, rest);
    case Int(i) => ReadsSigned(payload, pos, i, 4, rest);
    case UInt16(n) => ReadsUnsigned(payload, pos, n, 2, rest);
    case UInt32(n) => ReadsUnsigned(payload, pos, n, 4, rest);
    case Int64(i) => ReadsSigned(payload, pos, i, 8, rest);
    case UInt64(n) => ReadsUnsigned(payload, pos, n, 8, rest);
    case Raw(bytes) =>
      ReadsItem(payload, pos, [bytes] + rest);
      assert ([bytes] + rest)[1..] == rest;
    case Str(bytes) => ReadsPrefixed(payload, pos, bytes, rest);
    case Data(bytes) => ReadsPrefixed(payload, pos, bytes, rest);
  }

  /** A payload laid out by writing values gives them all back, in order, to a
      reader who knows their types; after that no read of anything succeeds. */
  lemma {:induction false} ReadsAllBack(payload: Bytes, pos: nat, values: seq<Value>)
    requires AllFit(values)
    requires LaidOut(payload, pos, AllItems(values))
    ensures ReadAll(payload, pos, KindsOf(values)) == (Some(values), Aligned(|payload|))
    ensures forall length: int | length > 0 :: ReadAt(payload, Aligned(|payload|), length).0.None?
    decreases |values|
  {
    hide Read, ReadAll, Items, AllItems, Number, Aligned, KindsOf, LaidOut;
    if values == [] {
      NothingReads(payload, pos);
    } else {
      var (v, rest) := (values[0], values[1..]);
      assert values == [v] + rest;
      FirstOfAll(v, rest);
      ReadsBack(payload, pos, v, AllItems(rest));
      var (_, next) := Read(payload, pos, KindOf(v));
      ReadsAllBack(payload, next, rest);
      ReadAllStep(payload, pos, KindOf(v), KindsOf(rest));
    }
  }

  lemma NothingReads(payload: Bytes, pos: nat)
    requires LaidOut(payload, pos, AllItems([]))
    ensures ReadAll(payload, pos, KindsOf([])) == (Some([]), Aligned(|payload|))
  {
  }

  lemma FirstOfAll(v: Value, rest: seq<Value>)
    requires Fits(v) && AllFit(rest)
    ensures AllFit([v] + rest) && AllItems([v] + rest) == Items(v) + AllItems(rest)
    ensures KindsOf([v] + rest) == [KindOf(v)] + KindsOf(rest)
  {
    hide Items;
    assert ([v] + rest)[1..] == rest;
  }

  lemma ReadAllStep(payload: Bytes, pos: nat, kind: Kind, kinds: seq<Kind>)
    ensures var (v, next) := Read(payload, pos, kind);
            v.Some? ==>
              var (rest, end) := ReadAll(payload, next, kinds);
              ReadAll(payload, pos, [kind] + kinds)
              == (if rest.Some? then Some([v.value] + rest.value) else None, end)
  {
    hide Read;
    assert ([kind] + kinds)[1..] == kinds;
  }

  /** Reading a value takes the room its items take. */
  lemma ReadNeedsRoom(payload: Bytes, pos: nat, v: Value)
    requires Fits(v) && Read(payload, pos, KindOf(v)).0 == Some(v)
    ensures Read(payload, pos, KindOf(v)).1 == pos + ItemsSize(Items(v))
    ensures pos + Extent(Items(v)) <= |payload|
  {
    FourIsAligned();
    hide Number, LittleEndian, Aligned, ToSigned, Pow256;
    match v
    case Str(bytes) => PrefixedSizes(bytes);
    case Data(bytes) => PrefixedSizes(bytes);
    case _ =>
  }

  lemma PrefixedSizes(bytes: Bytes)
    ensures Extent([LittleEndian(|bytes|, 4), bytes]) == 4 + |bytes|
    ensures ItemsSize([LittleEndian(|bytes|, 4), bytes]) == 4 + Aligned(|bytes|)
  {
    FourIsAligned();
    hide LittleEndian, Aligned;
    var rest := [bytes];
    assert [LittleEndian(|bytes|, 4), bytes][1..] == rest && |rest[1..]| == 0;
    assert ItemsSize(rest) == Aligned(|bytes|) && Extent(rest) == |bytes|;
  }

  /** No payload gives back values that take more room than it has. */
  lemma {:induction false} ReadsNeedRoom(payload: Bytes, pos: nat, values: seq<Value>)
    requires AllFit(values) && ReadAll(payload, pos, KindsOf(values)).0 == Some(values)
    ensures values != [] ==> pos + Extent(AllItems(values)) <= |payload|
    decreases |values|
  {
    hide Read, ReadAll, Items, AllItems, KindsOf, Extent, ItemsSize;
    if values != [] {
      var (v, rest) := (values[0], values[1..]);
      assert values == [v] + rest;
      FirstOfAll(v, rest);
      ReadAllFirst(payload, pos, v, rest);
      ReadNeedsRoom(payload, pos, v);
      var (_, next) := Read(payload, pos, KindOf(v));
      ReadsNeedRoom(payload, next, rest);
      ExtentConcat(Items(v), AllItems(rest));
      AllItemsOfSome(rest);
    }
  }

  lemma ReadAllFirst(payload: Bytes, pos: nat, v: Value, rest: seq<Value>)
    requires ReadAll(payload, pos, [KindOf(v)] + KindsOf(rest)).0 == Some([v] + rest)
    ensures var (r, next) := Read(payload, pos, KindOf(v));
            r == Some(v) && ReadAll(payload, next, KindsOf(rest)).0 == Some(rest)
  {
    hide Read;
    var kinds := [KindOf(v)] + KindsOf(rest);
    assert kinds[1..] == KindsOf(rest);
    var (r, next) := Read(payload, pos, kinds[0]);
    var (more, _) := ReadAll(payload, next, kinds[1..]);
    assert ([v] + rest)[1..] == rest && ([r.value] + more.value)[1..] == more.value;
  }

  lemma AllItemsOfSome(values: seq<Value>)
    requires AllFit(values)
    ensures values != [] ==> AllItems(values) != []
    ensures values == [] ==> AllItems(values) == []
  {
    hide Items;
  }

  lemma {:induction false} ExtentConcat(a: seq<Bytes>, b: seq<Bytes>)
    ensures Extent(a + b) == if b == [] then Extent(a) else ItemsSize(a) + Extent(b)
  {
    hide Aligned;
    if a == [] || b == [] {
      assert a + b == if a == [] then b else a;
    } else {
      ExtentConcat(a[1..], b);
      assert (a + b)[0] == a[0] && (a + b)[1..] == a[1..] + b;
    }
  }

  // ----- Trimming too late -----

  /** A payload of whole words with an item behind it. */
  lemma AppendAligned(payload: Bytes, items: seq<Bytes>, data: Bytes)
    requires LaidOut(payload, 0, items) && |payload| % 4 == 0
    ensures LaidOut(payload + data, 0, items + [data])
  {
    hide LaidOut;
    assert Appends(payload, data, payload + data);
    AppendLaysOut(payload, 0, items, data, payload + data);
  }

  lemma FirstItem(data: Bytes)
    ensures LaidOut(data, 0, [data])
  {
    hide Aligned;
    AlignedShift(0, |data|);
    assert |[data][1..]| == 0 && data[0..|data|] == data;
  }

  lemma DataThenNumber(data: Bytes, n: nat)
    requires |data| % 4 == 0 && Fits(Data(data)) && Fits(UInt32(n))
    ensures LaidOut(LittleEndian(|data|, 4) + data + LittleEndian(n, 4), 0, AllItems([Data(data), UInt32(n)]))
  {
    hide LaidOut, LittleEndian, AllItems, Aligned, Pow256;
    var (a, c) := (LittleEndian(|data|, 4), LittleEndian(n, 4));
    ItemsOfDataAndNumber(data, n);
    FirstItem(a);
    AppendAligned(a, [a], data);
    AppendAligned(a + data, [a] + [data], c);
    assert [a] + [data] + [c] == [a, data, c];
  }

  lemma ItemsOfDataAndNumber(data: Bytes, n: nat)
    requires Fits(Data(data)) && Fits(UInt32(n))
    ensures AllFit([Data(data), UInt32(n)])
    ensures AllItems([Data(data), UInt32(n)]) == [LittleEndian(|data|, 4), data, LittleEndian(n, 4)]
  {
    hide LittleEndian;
    var values := [Data(data), UInt32(n)];
    assert values[1..] == [UInt32(n)] && |[UInt32(n)][1..]| == 0;
    assert AllItems([UInt32(n)]) == [LittleEndian(n, 4)];
  }

  /** A variable buffer of eight bytes, a number written behind it, and the buffer
      trimmed to its first four bytes: what is laid out then, and read back, is the
      trimmed buffer and its own rest as a number.  The number written is cut off. */
  lemma TrimmingTooLate(front: Bytes, n: nat, m: nat)
    requires |front| == 4 && n < Pow256(4) && m < Pow256(4)
    ensures var (data, rest) := (front + LittleEndian(m, 4), LittleEndian(n, 4));
            var payload := LittleEndian(8, 4) + data + rest;
            && Fits(Data(data)) && Fits(UInt32(n)) && Fits(Data(front)) && Fits(UInt32(m))
            && LaidOut(payload, 0, AllItems([Data(data), UInt32(n)]))
            && HoldsBuffer(payload, 0) && BufferLength(payload, 0) == 8
            && LaidOut(Trimmed(payload, 0, 4), 0, AllItems([Data(front), UInt32(m)]))
            && ReadAll(Trimmed(payload, 0, 4), 0, [DataKind, UInt32Kind]).0 == Some([Data(front), UInt32(m)])
  {
    SmallFits(front, LittleEndian(m, 4));
    SignedLength(8);
    hide LaidOut, LittleEndian, Number, ToSigned, Pow256, AllItems, ReadAll;
    var (data, rest) := (front + LittleEndian(m, 4), LittleEndian(n, 4));
    var payload := LittleEndian(8, 4) + data + rest;
    DataThenNumber(data, n);
    DataThenNumber(front, m);
    CutBehindFour(LittleEndian(8, 4), front, LittleEndian(m, 4), rest);
    assert Trimmed(payload, 0, 4) == LittleEndian(4, 4) + front + LittleEndian(m, 4);
    ReadsAllBack(Trimmed(payload, 0, 4), 0, [Data(front), UInt32(m)]);
    KindsOfTwo(Data(front), UInt32(m));
  }

  lemma CutBehindFour(a: Bytes, b: Bytes, c: Bytes, d: Bytes)
    requires |a| == |b| == |c| == |d| == 4
    ensures (a + (b + c) + d)[0..4] == a && (a + (b + c) + d)[4..12] == b + c
    ensures forall e: Bytes :: (a + (b + c) + d)[..0] + e + (b + c) == e + b + c
  {
    forall e: Bytes ensures (a + (b + c) + d)[..0] + e + (b + c) == e + b + c {
    }
  }

  lemma SmallFits(a: Bytes, b: Bytes)
    requires |a| == |b| == 4
    ensures FitsSigned(8, 4) && Fits(Data(a)) && Fits(Data(a + b))
  {
    Powers();
  }

  lemma KindsOfTwo(a: Value, b: Value)
    ensures KindsOf([a, b]) == [KindOf(a), KindOf(b)]
  {
    assert [a, b][1..] == [b];
    assert KindsOf([b]) == [KindOf(b)];
  }

  lemma {:induction false} AllItemsConcat(a: seq<Value>, b: seq<Value>)
    requires AllFit(a) && AllFit(b)
    ensures AllFit(a + b) && AllItems(a + b) == AllItems(a) + AllItems(b)
    decreases |a|
  {
    hide Items, Fits;
    if a == [] {
      assert a + b == b && [] + AllItems(b) == AllItems(b);
    } else {
      var (v, rest) := (a[0], a[1..]);
      AllItemsConcat(rest, b);
      hide AllItems;
      assert a == [v] + rest && a + b == [v] + (rest + b);
      FirstOfAll(v, rest);
      FirstOfAll(v, rest + b);
      Associative(Items(v), AllItems(rest), AllItems(b));
    }
  }

  lemma Associative(a: seq<Bytes>, b: seq<Bytes>, c: seq<Bytes>)
    ensures (a + b) + c == a + (b + c)
  {
  }

  // ----- Framing -----

  /** The payload size field at the front of a pickle. */
  function SizeField(bytes: Bytes): nat
    requires |bytes| >= SIZE_FIELD
  {
    Number(bytes[..SIZE_FIELD])
  }

  /** The header size a view deduces from the length of its data; 0 drops the data.
      The subtraction is unsigned 32-bit arithmetic. */
  function DeducedHeaderSize(bytes: Bytes): nat {
    if |bytes| < SIZE_FIELD then 0 else
    var size := (|bytes| - SizeField(bytes)) % Pow256(4);
    if size > |bytes| || size != Aligned(size) then 0 else size
  }

  /** A view is dropped, or its header is aligned and, with the payload, is exactly
      the data. */
  lemma DeducedHeaderIsExact(bytes: Bytes)
    requires FitsSigned(|bytes|, 4)
    ensures DeducedHeaderSize(bytes) > 0 <==>
            |bytes| >= SIZE_FIELD && SizeField(bytes) < |bytes| && (|bytes| - SizeField(bytes)) % 4 == 0
    ensures DeducedHeaderSize(bytes) > 0 ==>
              DeducedHeaderSize(bytes) + SizeField(bytes) == |bytes| && DeducedHeaderSize(bytes) % 4 == 0
  {
    Powers();
    if |bytes| >= SIZE_FIELD {
      var (length, field) := (|bytes|, SizeField(bytes));
      WrappedDifference(length, field);
      AlignedIsFixed((length - field) % 0x1_0000_0000);
    }
  }

  /** An unsigned difference that would be negative wraps to a number that is too large. */
  lemma WrappedDifference(length: nat, field: nat)
    requires length < 0x8000_0000 && field < 0x1_0000_0000
    ensures var d := (length - field) % 0x1_0000_0000;
            if field <= length then d == length - field else d > length
  {
    if field > length {
      assert length - field == -0x1_0000_0000 + (length - field + 0x1_0000_0000);
    }
  }

  lemma AlignedIsFixed(n: nat)
    ensures n == Aligned(n) <==> n % 4 == 0
  {
  }

  /** A whole pickle as bytes: header, then as much payload as its size field says. */
  predicate IsPickle(headerSize: nat, bytes: Bytes) {
    && headerSize % 4 == 0 && SIZE_FIELD <= headerSize
    && |bytes| >= headerSize
    && |bytes| == headerSize + SizeField(bytes)
  }

  /** The end of the pickle at the start of `range`, if all of it is there. */
  function FindNext(headerSize: nat, range: Bytes): Option<nat> {
    if |range| < SIZE_FIELD then None else
    var end := headerSize + SizeField(range);
    if end > |range| then None else Some(end)
  }

  function Joined(pickles: seq<Bytes>): Bytes {
    if pickles == [] then [] else pickles[0] + Joined(pickles[1..])
  }

  /** Cutting at the ends found until nothing is left. */
  function Cut(headerSize: nat, range: Bytes): seq<Bytes>
    requires headerSize > 0
    decreases |range|
  {
    match FindNext(headerSize, range)
    case None => []
    case Some(end) => [range[..end]] + Cut(headerSize, range[end..])
  }

  lemma FindsEnd(headerSize: nat, bytes: Bytes, after: Bytes)
    requires IsPickle(headerSize, bytes)
    ensures FindNext(headerSize, bytes + after) == Some(|bytes|)
  {
    assert (bytes + after)[..SIZE_FIELD] == bytes[..SIZE_FIELD];
  }

  /** An end is found exactly if what comes before it is a whole pickle. */
  lemma FindsExactly(headerSize: nat, range: Bytes, end: nat)
    requires headerSize % 4 == 0 && SIZE_FIELD <= headerSize
    ensures FindNext(headerSize, range) == Some(end) <==> end <= |range| && IsPickle(headerSize, range[..end])
  {
    if end <= |range| && SIZE_FIELD <= end {
      assert range[..end][..SIZE_FIELD] == range[..SIZE_FIELD];
    }
  }

  lemma FindsNothingInPrefix(headerSize: nat, bytes: Bytes, n: nat)
    requires IsPickle(headerSize, bytes) && n < |bytes|
    ensures FindNext(headerSize, bytes[..n]).None?
  {
    if n >= SIZE_FIELD {
      assert bytes[..n][..SIZE_FIELD] == bytes[..SIZE_FIELD];
    }
  }

  /** A stream of pickles with one header size is cut exactly at their boundaries,
      and an incomplete last pickle is left alone. */
  lemma {:induction false} CutsAtBoundaries(headerSize: nat, pickles: seq<Bytes>, last: Bytes, n: nat)
    requires forall p | p in pickles :: IsPickle(headerSize, p)
    requires IsPickle(headerSize, last) && n < |last|
    ensures Cut(headerSize, Joined(pickles) + last[..n]) == pickles
    decreases |pickles|
  {
    var range := Joined(pickles) + last[..n];
    if pickles == [] {
      assert range == last[..n];
      FindsNothingInPrefix(headerSize, last, n);
    } else {
      var rest := Joined(pickles[1..]) + last[..n];
      assert range == pickles[0] + rest;
      FindsEnd(headerSize, pickles[0], rest);
      assert range[..|pickles[0]|] == pickles[0] && range[|pickles[0]|..] == rest;
      CutsAtBoundaries(headerSize, pickles[1..], last, n);
    }
  }
}
