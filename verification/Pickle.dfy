/**
 The pickle object: a growable, 4-byte aligned buffer with a header that starts
 with the payload size, typed writers and readers, read-only views, and a variable
 buffer that can be trimmed after the fact.
 */
module Pickle {
  import opened Wrappers
  import opened PickleFormat

  const PAYLOAD_UNIT: nat := 64

  /** Memory is enough for a new pickle; how much more there is is open. */
  type HeapLimit = n: nat | PAYLOAD_UNIT <= n witness PAYLOAD_UNIT

  class Pickle {
    var header: array?<Byte>       // null only for a view that was dropped
    var headerSize: nat
    var readOnly: bool             // capacity_ is the read-only mark
    var variableBufferOffset: nat
    const heapLimit: HeapLimit     // realloc succeeds up to this size

    function PayloadSize(): nat
      requires header != null && header.Length >= SIZE_FIELD
      reads this`header, header
    {
      Number(header[..SIZE_FIELD])
    }

    /** The buffer holds the header and the payload. */
    ghost predicate Holds()
      reads this`header, this`headerSize, header
    {
      && header != null
      && SIZE_FIELD <= headerSize && headerSize % 4 == 0
      && headerSize <= header.Length
      && headerSize + PayloadSize() <= header.Length
    }

    ghost predicate Readable()
      reads this`header, this`headerSize, this`readOnly, header
    {
      if header == null then readOnly && headerSize == 0 else Holds()
    }

    /** The invariant of every pickle that may be written to: the filling after the
        payload up to the next aligned position fits as well. */
    ghost predicate Writable()
      reads this`header, this`headerSize, this`readOnly, header
    {
      && Holds() && !readOnly
      && header.Length % PAYLOAD_UNIT == 0 && header.Length <= heapLimit
      && headerSize + Aligned(PayloadSize()) <= header.Length
    }

    ghost function Payload(): Bytes
      requires Readable()
      reads this`header, this`headerSize, this`readOnly, header
    {
      if header == null then [] else header[headerSize..headerSize + PayloadSize()]
    }

    /** Zeros follow the payload up to the next aligned position. */
    ghost predicate Filled()
      requires Holds()
      reads this`header, this`headerSize, header
    {
      ZerosIn(header[..], headerSize + PayloadSize(), headerSize + Aligned(PayloadSize()))
    }

    /** With data behind what was the payload: the filling in between is zero if it was
        before, and zeros follow. */
    ghost predicate FilledBehind(filled: bool, before: Bytes, data: Bytes)
      requires Holds()
      reads this`header, this`headerSize, header
    {
      && Filled()
      && (filled ==> header[headerSize..headerSize + PayloadSize()] == before + Filling(|before|) + data)
    }

    /** The payload is, byte by byte, what these items come to. */
    ghost predicate IsExactly(items: seq<Bytes>)
      requires Holds() && !readOnly
      reads this`header, this`headerSize, this`readOnly, header
    {
      Filled() && Payload() == Laid(items)
    }

    /** The same, unless the size does not fit 32 bits. */
    ghost predicate Exactly(items: seq<Bytes>)
      requires Holds() && !readOnly
      reads this`header, this`headerSize, this`readOnly, header
    {
      |Laid(items)| < WRAP ==> IsExactly(items)
    }

    lemma WasExactly(items: seq<Bytes>)
      requires Writable()
      ensures IsExactly(items) ==> Filled() && Payload() == Laid(items)
    {
    }

    lemma NextExactly(filled: bool, before: Bytes, items: seq<Bytes>, data: Bytes)
      requires Writable() && (Aligned(|before|) + |data| < WRAP ==> FilledBehind(filled, before, data))
      ensures filled && before == Laid(items) ==> Exactly(items + [data])
    {
      LaidAppend(items, data);
      hide Laid, Filled, Filling;
    }

    /** `data()` for `size()` bytes. */
    ghost function Image(): Bytes
      requires Holds()
      reads this`header, this`headerSize, header
    {
      header[..headerSize + PayloadSize()]
    }

    constructor (size: nat, limit: HeapLimit)
      requires SIZE_FIELD <= size <= PAYLOAD_UNIT
      ensures Writable() && fresh(header) && heapLimit == limit
      ensures headerSize == Aligned(size) && Payload() == [] && variableBufferOffset == 0
      ensures IsExactly([]) && header.Length == 64
    {
      hide Filled, IsExactly;
      var buffer := new Byte[PAYLOAD_UNIT];
      buffer[0], buffer[1], buffer[2], buffer[3] := 0, 0, 0, 0;
      assert buffer[..SIZE_FIELD] == LittleEndian(0, 4) by { ZeroBytes(); }
      NumberOfLittleEndian(0, 4);
      header := buffer;
      headerSize := Aligned(size);
      readOnly := false;
      variableBufferOffset := 0;
      heapLimit := limit;
      new;
      hide Aligned, Number;
      assert header[..SIZE_FIELD] == buffer[..SIZE_FIELD];
      EmptyIsExact();
    }

    lemma EmptyIsExact()
      requires Writable() && PayloadSize() == 0
      ensures Payload() == [] && IsExactly([])
    {
      hide Number, Aligned, AlignInt, Laid;
      LaidNothing();
      FourIsAligned();
    }

    /** The header size that the data and its length imply, in 32-bit arithmetic; 0 if
        they do not agree. */
    static method HeaderSizeOf(data: array<Byte>, length: int) returns (size: nat)
      requires length <= data.Length && FitsSigned(length, 4)
      ensures size == DeducedHeaderSize(Prefix(data[..], length))
    {
      hide Number, Aligned;
      Powers();
      size := 0;
      if length >= SIZE_FIELD {
        assert data[..][..length] == data[..length];
        assert data[..SIZE_FIELD] == data[..length][..SIZE_FIELD];
        size := (length - Number(data[..SIZE_FIELD])) % 0x1_0000_0000;
      }
      // the length as an unsigned number: negative ones are large
      if size > length % 0x1_0000_0000 {
        size := 0;
      }
      if size != Aligned(size) {
        size := 0;
      }
    }

    /** A view of the first `length` bytes of `data`, which are not copied.  A negative
        length drops them. */
    constructor View(data: array<Byte>, length: int, limit: HeapLimit)
      requires length <= data.Length && FitsSigned(length, 4)
      ensures Readable() && readOnly && (header == null || header == data)
      ensures headerSize == DeducedHeaderSize(Prefix(data[..], length)) && (header == null <==> headerSize == 0)
      ensures header != null ==> length > 0 && Image() == data[..length]
    {
      hide Number, Aligned, DeducedHeaderSize;
      ghost var bytes := Prefix(data[..], length);
      Powers();
      DeducedHeaderIsExact(bytes);
      var size := HeaderSizeOf(data, length);
      assert length >= 0 ==> bytes == data[..length];
      assert length >= SIZE_FIELD ==> data[..SIZE_FIELD] == bytes[..SIZE_FIELD];
      header := if size == 0 then null else data;
      headerSize := size;
      readOnly := true;
      variableBufferOffset := 0;
      heapLimit := limit;
    }

    /** Stores a 4-byte number in the buffer. */
    method Store(at: nat, n: nat)
      requires header != null && at + 4 <= header.Length && n < Pow256(4)
      modifies header
      ensures header[..] == old(header[..at]) + LittleEndian(n, 4) + old(header[at + 4..])
    {
      var bytes := LittleEndian(n, 4);
      forall i | 0 <= i < 4 {
        header[at + i] := bytes[i];
      }
    }

    method Resize(capacity: nat) returns (ok: bool)
      requires header != null && !readOnly
      modifies this`header
      ensures ok <==> AlignInt(capacity, PAYLOAD_UNIT) <= heapLimit
      ensures !ok ==> header == old(header)
      ensures ok ==> fresh(header) && header.Length == AlignInt(capacity, PAYLOAD_UNIT)
      ensures ok ==> forall i | 0 <= i < header.Length && i < old(header).Length :: header[i] == old(header[i])
    {
      var aligned := AlignInt(capacity, PAYLOAD_UNIT);
      if aligned > heapLimit {
        return false;
      }
      var buffer := new Byte[aligned];
      forall i | 0 <= i < aligned && i < header.Length {
        buffer[i] := header[i];
      }
      header := buffer;
      ok := true;
    }

    /** Room for `length` more bytes: the buffer as it is, or doubled, or as large as
        needed. */
    predicate RoomAfterGrowth(length: nat)
      requires header != null && header.Length >= SIZE_FIELD
      reads this`header, this`headerSize, header
    {
      var needed := headerSize + Aligned(PayloadSize()) + length;
      needed <= header.Length || AlignInt(Max(header.Length * 2, needed), PAYLOAD_UNIT) <= heapLimit
    }

    /** Memory for `n` payload bytes, even if the buffer is doubled on the way. */
    predicate Suffices(n: nat)
      reads this`headerSize
    {
      2 * (headerSize + n) + PAYLOAD_UNIT <= heapLimit
    }

    /** With memory for what is laid out and `data`, writing `data` succeeds. */
    lemma SufficesForNext(items: seq<Bytes>, data: Bytes)
      requires Writable() && Tracks(Payload(), items, heapLimit) && Suffices(ItemsSize(items + [data]))
      ensures RoomAfterGrowth(|data|)
    {
      hide Number, AlignInt, Aligned, LaidOut;
      ItemsSizeConcat(items, [data]);
      assert ItemsSize([data]) >= |data|;
      var needed := headerSize + Aligned(PayloadSize()) + |data|;
      AlignIntIsLeast(Max(header.Length * 2, needed), PAYLOAD_UNIT, 0);
    }

    /** The buffer, or a larger one with the same content at its front. */
    method EnsureCapacity(needed: nat) returns (ok: bool)
      requires Writable()
      modifies this`header
      ensures fresh(header) || header == old(header)
      ensures ok <==> needed <= old(header.Length)
                      || AlignInt(Max(old(header.Length) * 2, needed), PAYLOAD_UNIT) <= heapLimit
      ensures !ok ==> header == old(header)
      ensures ok ==>
                && header != null && old(header.Length) <= header.Length <= heapLimit && needed <= header.Length
                && header.Length % PAYLOAD_UNIT == 0
                && header[..old(header.Length)] == old(header[..])
    {
      ok := true;
      if needed > header.Length {
        AlignIntIsLeast(Max(header.Length * 2, needed), PAYLOAD_UNIT, 0);
        ok := Resize(Max(header.Length * 2, needed));
      }
    }

    /** The position to write at, or -1; the payload then extends over it, as long as
        its size fits the 32 bits it is stored in. */
    method BeginWrite(length: nat) returns (at: int)
      requires Writable()
      modifies this`header, header
      ensures Writable() && (fresh(header) || header == old(header))
      ensures at != -1 <==> old(RoomAfterGrowth(length))
      ensures at == -1 ==> header == old(header) && header[..] == old(header[..])
      ensures at != -1 ==>
                && at == headerSize + Aligned(old(PayloadSize())) && at + Aligned(length) <= header.Length
                && PayloadSize() == Stored(Aligned(old(PayloadSize())) + length)
                && Agree(old(header[..]), header[..], at)
    {
      hide Number, LittleEndian, Aligned, AlignInt, Stored;
      Powers();
      ghost var before := header[..];
      var offset := Aligned(PayloadSize());
      var newSize := offset + length;
      var needed := headerSize + newSize;
      var ok := EnsureCapacity(needed);
      if !ok {
        return -1;
      }
      ghost var grown := header[..];
      assert grown[..|before|] == before[..|before|];
      var stored := Stored(newSize);
      Store(0, stored);
      NumberOfLittleEndian(stored, 4);
      AlignedFits(headerSize, newSize, header.Length);
      AlignedGrows(stored, newSize);
      AlignedShift(offset, length);
      at := headerSize + offset;
      StoredInFront(grown, header[..], LittleEndian(stored, 4), SIZE_FIELD, at);
      SliceOfPrefix(before, grown, |before|, SIZE_FIELD, at);
    }

    /** Zeros up to the next aligned position. */
    method EndWrite(dest: nat, length: nat)
      requires header != null && dest + Aligned(length) <= header.Length
      modifies header
      ensures header[..dest + length] == old(header[..dest + length])
      ensures header[dest + Aligned(length)..] == old(header[dest + Aligned(length)..])
      ensures ZerosIn(header[..], dest + length, dest + Aligned(length))
    {
      if length % 4 != 0 {
        forall i | dest + length <= i < dest + length + (4 - length % 4) {
          header[i] := 0;
        }
      }
    }

    method Overwrite(at: nat, data: Bytes)
      requires header != null && at + |data| <= header.Length
      modifies header
      ensures header[..at] == old(header[..at]) && header[at..at + |data|] == data
      ensures header[at + |data|..] == old(header[at + |data|..])
    {
      forall i | 0 <= i < |data| {
        header[at + i] := data[i];
      }
    }

    method CopyIn(at: nat, data: Bytes)
      requires header != null && at + Aligned(|data|) <= header.Length
      modifies header
      ensures header[..at] == old(header[..at]) && header[at..at + |data|] == data
      ensures ZerosIn(header[..], at + |data|, at + Aligned(|data|))
    {
      Overwrite(at, data);
      ghost var written := header[..at + |data|];
      EndWrite(at, |data|);
      assert header[..at] == written[..at] && header[at..at + |data|] == written[at..];
    }

    /** The second half of a write, into the room that BeginWrite made behind the payload
        of what the buffer was `before`. */
    method FinishWrite(at: nat, data: Bytes, ghost before: Bytes, ghost payload: Bytes)
      requires Writable() && at == headerSize + Aligned(|payload|) && at + Aligned(|data|) <= header.Length
      requires PayloadSize() == Stored(Aligned(|payload|) + |data|)
      requires at <= |before| && payload == before[headerSize..headerSize + |payload|]
      requires Agree(before, header[..], at)
      modifies header
      ensures Writable()
      ensures AppendsWrapped(payload, data, Payload())
      ensures Agree(before, header[..], headerSize)
      ensures Aligned(|payload|) + |data| < WRAP ==>
                FilledBehind(ZerosIn(before, headerSize + |payload|, at), payload, data)
    {
      hide Number, LittleEndian, Aligned, AppendsWrapped, Stored, ZerosIn, FilledBehind, Agree;
      ghost var grown := header[..];
      assert header[..SIZE_FIELD] == grown[..SIZE_FIELD];
      CopyIn(at, data);
      ghost var after := header[..];
      assert after[..at] == grown[..at] && after[at..at + |data|] == data;
      hide Writable, Holds, Payload, PayloadSize, Readable;
      IsAppended(before, grown, after, payload, data);
      IsFilled(before, grown, after, payload, data);
    }

    /** The payload is the old one with the data appended. */
    lemma IsAppended(before: Bytes, grown: Bytes, after: Bytes, payload: Bytes, data: Bytes)
      requires header != null && SIZE_FIELD <= headerSize && headerSize % 4 == 0 && !readOnly
      requires header.Length % PAYLOAD_UNIT == 0 && header.Length <= heapLimit && after == header[..]
      requires SIZE_FIELD <= |grown| == |after| && Number(grown[..SIZE_FIELD]) == Stored(Aligned(|payload|) + |data|)
      requires var at := headerSize + Aligned(|payload|);
               && at <= |before| && at + |data| <= |after|
               && after[..at] == grown[..at] && after[at..at + |data|] == data
      requires payload == before[headerSize..headerSize + |payload|]
      requires Agree(before, grown, headerSize + Aligned(|payload|))
      ensures PayloadSize() == Stored(Aligned(|payload|) + |data|)
      ensures Writable() && AppendsWrapped(payload, data, Payload())
      ensures Agree(before, after, headerSize)
    {
      hide Number, Aligned, AppendsWrapped, Stored;
      AgreeLess(before, grown, headerSize + Aligned(|payload|), headerSize + |payload|);
      WrittenBehind(before, grown, after, headerSize, |payload|, data);
      assert header[..SIZE_FIELD] == after[..SIZE_FIELD];
      AlignedFits(headerSize, PayloadSize(), header.Length);
      PayloadIsSlice();
    }

    /** With what was written behind the payload. */
    lemma IsFilled(before: Bytes, grown: Bytes, after: Bytes, payload: Bytes, data: Bytes)
      requires Holds() && after == header[..] && headerSize + Aligned(|payload|) <= |before|
      requires PayloadSize() == Stored(Aligned(|payload|) + |data|) && |grown| == header.Length
      requires headerSize + Aligned(|payload|) + Aligned(|data|) <= header.Length
      requires payload == before[headerSize..headerSize + |payload|]
      requires var at := headerSize + Aligned(|payload|);
               && Agree(before, grown, at)
               && after[..at] == grown[..at] && after[at..at + |data|] == data
               && ZerosIn(after, at + |data|, at + Aligned(|data|))
      ensures Aligned(|payload|) + |data| < WRAP ==>
                FilledBehind(ZerosIn(before, headerSize + |payload|, headerSize + Aligned(|payload|)), payload, data)
    {
      hide Number, Filling, ZerosIn, Aligned;
      var at := headerSize + Aligned(|payload|);
      SliceOfPrefix(grown, after, at, SIZE_FIELD, at);
      AlignedShift(Aligned(|payload|), |data|);
      WrittenNeatly(before, after, headerSize, |payload|, data);
    }

    method WriteBytes(data: Bytes) returns (ok: bool)
      requires Writable()
      modifies this`header, header
      ensures Writable() && (fresh(header) || header == old(header))
      ensures ok <==> old(RoomAfterGrowth(|data|))
      ensures if ok then AppendsWrapped(old(Payload()), data, Payload()) else Payload() == old(Payload())
      ensures ok ==> Aligned(|old(Payload())|) + |data| <= heapLimit
      ensures Agree(old(header[..]), header[..], headerSize)
      ensures ok && Aligned(|old(Payload())|) + |data| < WRAP ==>
                FilledBehind(old(Filled()), old(Payload()), data)
    {
      hide Number, LittleEndian, Aligned, Appends, AppendsWrapped, Stored, ZerosIn, FilledBehind;
      ghost var (before, payload) := (header[..], Payload());
      PayloadIsSlice();
      var at := BeginWrite(|data|);
      ok := at != -1;
      if ok {
        FinishWrite(at, data, before, payload);
      } else {
        assert header[..SIZE_FIELD] == before[..SIZE_FIELD];
      }
    }

    /** Writes bytes as the next item. */
    method WriteItem(bytes: Bytes, ghost items: seq<Bytes>) returns (ok: bool)
      requires Writable() && Tracks(Payload(), items, heapLimit)
      modifies this`header, header
      ensures Writable() && (fresh(header) || header == old(header))
      ensures Tracks(Payload(), if ok then items + [bytes] else items, heapLimit)
      ensures Suffices(ItemsSize(items + [bytes])) ==> ok
      ensures ok && old(IsExactly(items)) ==> Exactly(items + [bytes])
    {
      hide IsExactly, Exactly, FilledBehind, Laid, Filled, AppendsWrapped, Tracks;
      if Suffices(ItemsSize(items + [bytes])) {
        SufficesForNext(items, bytes);
      }
      ghost var (before, filled) := (Payload(), Filled());
      WasExactly(items);
      ok := WriteBytes(bytes);
      if ok {
        AppendTracks(before, items, bytes, Payload(), heapLimit);
        NextExactly(filled, before, items, bytes);
      }
    }

    method WriteNumber(n: nat, width: nat, ghost items: seq<Bytes>) returns (ok: bool)
      requires Writable() && Tracks(Payload(), items, heapLimit)
      modifies this`header, header
      ensures Writable() && (fresh(header) || header == old(header))
      ensures Tracks(Payload(), if ok then items + [LittleEndian(n, width)] else items, heapLimit)
      ensures Suffices(ItemsSize(items + [LittleEndian(n, width)])) ==> ok
      ensures ok && old(IsExactly(items)) ==> Exactly(items + [LittleEndian(n, width)])
    {
      ok := WriteItem(LittleEndian(n, width), items);
    }

    /** A length as an `int`, then the bytes. */
    method WritePrefixed(bytes: Bytes, ghost items: seq<Bytes>) returns (ok: bool)
      requires Writable() && Tracks(Payload(), items, heapLimit) && FitsSigned(|bytes|, 4)
      modifies this`header, header
      ensures Writable() && (fresh(header) || header == old(header))
      ensures ok ==> Tracks(Payload(), items + [LittleEndian(|bytes|, 4), bytes], heapLimit)
      ensures !ok ==> Tracks(Payload(), items, heapLimit)
                      || Tracks(Payload(), items + [LittleEndian(|bytes|, 4)], heapLimit)
      ensures Suffices(ItemsSize(items + [LittleEndian(|bytes|, 4), bytes])) ==> ok
      ensures ok && old(IsExactly(items)) ==> Exactly(items + [LittleEndian(|bytes|, 4), bytes])
    {
      hide IsExactly, FilledBehind, Laid, Filled, LittleEndian;
      ghost var length := LittleEndian(|bytes|, 4);
      LaidGrows(items + [length], [bytes]);
      assert items + [length] + [bytes] == items + [length, bytes];
      ItemsSizeConcat(items + [length], [bytes]);
      ok := WriteNumber(|bytes|, 4, items);
      if ok {
        ok := WriteItem(bytes, items + [length]);
      }
    }

    /** Writes a value of any type.  When memory runs out between the two items of a
        string, its length stays behind. */
    method Write(v: Value, ghost items: seq<Bytes>) returns (ok: bool)
      requires Writable() && Fits(v) && Tracks(Payload(), items, heapLimit)
      modifies this`header, header
      ensures Writable() && (fresh(header) || header == old(header))
      ensures ok ==> Tracks(Payload(), items + Items(v), heapLimit)
      ensures !ok ==> Tracks(Payload(), items, heapLimit) || Tracks(Payload(), items + Items(v)[..1], heapLimit)
      ensures Suffices(ItemsSize(items + Items(v))) ==> ok
      ensures ok && old(IsExactly(items)) ==> Exactly(items + Items(v))
    {
      hide IsExactly, Exactly, Tracks, AppendsWrapped, LittleEndian, Pow256;
      assert items + Items(v)[..0] == items && Items(v)[..|Items(v)|] == Items(v);
      match v
      case Bool(b) => ok := WriteNumber(if b then 1 else 0, 4, items);
      case Int(i) => ok := WriteNumber(FromSigned(i, 4), 4, items);
      case UInt16(n) => ok := WriteNumber(n, 2, items);
      case UInt32(n) => ok := WriteNumber(n, 4, items);
      case Int64(i) => ok := WriteNumber(FromSigned(i, 8), 8, items);
      case UInt64(n) => ok := WriteNumber(n, 8, items);
      case Raw(bytes) =>
        ok := WriteItem(bytes, items);
      case Str(bytes) =>
        assert Items(v)[..1] == [LittleEndian(|bytes|, 4)];
        ok := WritePrefixed(bytes, items);
      case Data(bytes) =>
        assert Items(v)[..1] == [LittleEndian(|bytes|, 4)];
        ok := WritePrefixed(bytes, items);
    }

    /** Makes room for `length` bytes that the caller will fill in, and remembers where
        their length is; the position of the bytes, or -1. */
    method BeginWriteData(length: int, ghost items: seq<Bytes>) returns (at: int)
      requires Writable() && variableBufferOffset == 0 && FitsSigned(length, 4)
      requires Tracks(Payload(), items, heapLimit)
      modifies this`header, this`variableBufferOffset, header
      ensures Writable() && (fresh(header) || header == old(header))
      ensures at != -1 ==>
                && length >= 0 && headerSize <= at && 4 <= at && at + length <= header.Length
                && variableBufferOffset == at - 4
                && (heapLimit < WRAP || ItemsSize(items) + 4 + length < WRAP ==>
                      at + length == headerSize + PayloadSize())
                && Tracks(Payload(), items + [LittleEndian(length, 4), header[at..at + length]], heapLimit)
      ensures at == -1 ==>
                && variableBufferOffset == 0
                && (Tracks(Payload(), items, heapLimit)
                    || (length >= 0 && Tracks(Payload(), items + [LittleEndian(length, 4)], heapLimit)))
      ensures length >= 0 && Suffices(ItemsSize(items) + 4 + Aligned(length)) ==> at != -1
    {
      hide Tracks, LittleEndian, Aligned, AlignInt, Number, Pow256, ItemsSize;
      if length < 0 {
        return -1;
      }
      at := WriteBuffer(length, items);
      if at != -1 {
        variableBufferOffset := at - 4;
      }
    }

    /** The length and, behind it, the room. */
    method WriteBuffer(length: nat, ghost items: seq<Bytes>) returns (at: int)
      requires Writable() && FitsSigned(length, 4) && Tracks(Payload(), items, heapLimit)
      modifies this`header, header
      ensures Writable() && (fresh(header) || header == old(header))
      ensures at != -1 ==>
                && headerSize <= at && 4 <= at && at + length <= header.Length
                && (heapLimit < WRAP || ItemsSize(items) + 4 + length < WRAP ==>
                      at + length == headerSize + PayloadSize())
                && Tracks(Payload(), items + [LittleEndian(length, 4), header[at..at + length]], heapLimit)
      ensures at == -1 ==>
                Tracks(Payload(), items, heapLimit) || Tracks(Payload(), items + [LittleEndian(length, 4)], heapLimit)
      ensures Suffices(ItemsSize(items) + 4 + Aligned(length)) ==> at != -1
    {
      hide Tracks, LittleEndian, Aligned, AlignInt, Number, Pow256, ItemsSize, PayloadSize;
      ghost var mark := LittleEndian(length, 4);
      ItemsSizeAppend(items, mark);
      FourIsAligned();
      var ok := WriteNumber(length, 4, items);
      if !ok {
        return -1;
      }
      at := ReserveItem(length, items + [mark]);
      if at != -1 {
        assert items + [mark] + [header[at..at + length]] == items + [mark, header[at..at + length]];
      }
    }

    /** Room for one more item. */
    method ReserveItem(length: nat, ghost items: seq<Bytes>) returns (at: int)
      requires Writable() && Tracks(Payload(), items, heapLimit)
      modifies this`header, header
      ensures Writable() && (fresh(header) || header == old(header))
      ensures at != -1 ==>
                && headerSize <= at && 4 <= at && at + length <= header.Length
                && (heapLimit < WRAP || ItemsSize(items) + length < WRAP ==>
                      at + length == headerSize + PayloadSize())
                && Tracks(Payload(), items + [header[at..at + length]], heapLimit)
      ensures at == -1 ==> Tracks(Payload(), items, heapLimit)
      ensures Suffices(ItemsSize(items) + Aligned(length)) ==> at != -1
    {
      hide Tracks, AppendsWrapped, Aligned, AlignInt, Number, ItemsSize, PayloadSize;
      ghost var payload := Payload();
      if Suffices(ItemsSize(items) + Aligned(length)) {
        ItemsSizeAppend(items, ZeroItem(length));
        SufficesForNext(items, ZeroItem(length));
      }
      at := Reserve(length);
      TracksSize(payload, items, heapLimit);
      if at != -1 {
        AppendTracks(payload, items, header[at..at + length], Payload(), heapLimit);
      }
    }

    /** Room for `length` bytes that are not written yet, padded already. */
    method Reserve(length: nat) returns (at: int)
      requires Writable()
      modifies this`header, header
      ensures Writable() && (fresh(header) || header == old(header))
      ensures at != -1 <==> old(RoomAfterGrowth(length))
      ensures at == -1 ==> Payload() == old(Payload())
      ensures at != -1 ==>
                && 4 <= at == headerSize + Aligned(|old(Payload())|) && at + length <= header.Length
                && (Aligned(|old(Payload())|) + length < WRAP ==> at + length == headerSize + PayloadSize())
                && Aligned(|old(Payload())|) + length <= heapLimit
                && AppendsWrapped(old(Payload()), header[at..at + length], Payload())
                && (Aligned(|old(Payload())|) + length < WRAP ==>
                      FilledBehind(old(Filled()), old(Payload()), header[at..at + length]))
    {
      hide Number, LittleEndian, Aligned, AlignInt, AppendsWrapped, Stored, ZerosIn, FilledBehind;
      ghost var (before, payload) := (header[..], Payload());
      PayloadIsSlice();
      at := BeginWrite(length);
      if at != -1 {
        FinishVariable(at, length, before, payload);
      } else {
        assert header[..SIZE_FIELD] == before[..SIZE_FIELD];
        PayloadIsSlice();
      }
    }

    /** Pads behind the bytes the caller is still to write. */
    method FinishVariable(at: nat, length: nat, ghost before: Bytes, ghost payload: Bytes)
      requires Writable() && at == headerSize + Aligned(|payload|) && at + Aligned(length) <= header.Length
      requires PayloadSize() == Stored(Aligned(|payload|) + length)
      requires at <= |before| && payload == before[headerSize..headerSize + |payload|]
      requires Agree(before, header[..], at)
      modifies header
      ensures Writable() && PayloadSize() == old(PayloadSize())
      ensures AppendsWrapped(payload, header[at..at + length], Payload())
      ensures Aligned(|payload|) + length < WRAP ==>
                FilledBehind(ZerosIn(before, headerSize + |payload|, at), payload, header[at..at + length])
    {
      hide Number, LittleEndian, Aligned, AppendsWrapped, Stored, ZerosIn, FilledBehind, Agree;
      ghost var grown := header[..];
      assert header[..SIZE_FIELD] == grown[..SIZE_FIELD];
      EndWrite(at, length);
      ghost var after := header[..];
      assert after[..at + length] == grown[..at + length];
      SliceOfPrefix(grown, after, at + length, 0, at);
      assert after[..at] == after[0..at] && grown[..at] == grown[0..at];
      hide Writable, Holds, Payload, PayloadSize, Readable;
      IsAppended(before, grown, after, payload, after[at..at + length]);
      IsFilled(before, grown, after, payload, after[at..at + length]);
    }

    /** What the caller of BeginWriteData does with the position it got. */
    method FillVariable(at: nat, data: Bytes, ghost items: seq<Bytes>)
      requires Writable() && headerSize <= at && at + |data| == headerSize + PayloadSize()
      requires LaidOut(Payload(), 0, items + [header[at..at + |data|]])
      modifies header
      ensures Writable() && PayloadSize() == old(PayloadSize())
      ensures LaidOut(Payload(), 0, items + [data])
    {
      hide LaidOut, Number, Aligned;
      ghost var (before, payload, was) := (header[..], Payload(), header[at..at + |data|]);
      PayloadIsSlice();
      Overwrite(at, data);
      FilledPayload(before, header[..], headerSize, at, data);
      assert header[..SIZE_FIELD] == before[..SIZE_FIELD];
      PayloadIsSlice();
      hide Readable, Writable, Holds, Payload;
      LastItemReplaced(payload, 0, items, was, data, Payload());
    }

    /** Fills the variable buffer just reserved, then trims it. */
    method FillTrimmed(at: nat, data: Bytes, n: nat, ghost items: seq<Bytes>)
      requires Writable() && n <= |data| && FitsSigned(|data|, 4)
      requires 4 <= at && at + |data| == headerSize + PayloadSize() && variableBufferOffset == at - 4
      requires LaidOut(Payload(), 0, items + [LittleEndian(|data|, 4), header[at..at + |data|]])
      modifies header
      ensures Writable() && LaidOut(Payload(), 0, items + [LittleEndian(n, 4), data[..n]])
    {
      hide LaidOut, Number, Aligned, LittleEndian;
      ghost var mark := LittleEndian(|data|, 4);
      LastItemsEnd(Payload(), 0, items, header[at..at + |data|]);
      assert items + [mark] + [header[at..at + |data|]] == items + [mark, header[at..at + |data|]];
      FillVariable(at, data, items + [mark]);
      assert items + [mark] + [data] == items + [mark, data];
      ghost var payload := Payload();
      LastItemsEnd(payload, 0, items, data);
      SignedLength(|data|);
      TrimWriteData(n);
      TrimmedLast(payload, items, data, n);
    }

    /** Shrinks the variable buffer and, by as much, the payload: what is cut off is
        the payload's end, whether the buffer is there or not. */
    method TrimWriteData(newLength: int)
      requires Writable() && headerSize <= variableBufferOffset
      requires HoldsBuffer(Payload(), variableBufferOffset - headerSize)
      modifies header
      ensures Writable()
      ensures var at := variableBufferOffset - headerSize;
              Payload() == if 0 <= newLength <= old(BufferLength(Payload(), at))
                           then Trimmed(old(Payload()), at, newLength)
                           else old(Payload())
    {
      hide Payload, CutShort, BufferLength, LittleEndian, Number, Aligned;
      var at := variableBufferOffset;
      var length := ReadLengthAt(at);
      if newLength < 0 || newLength > length {
        return;
      }
      PayloadIsSlice();
      TrimBuffer(PayloadSize() - (length - newLength), at, newLength);
    }

    /** The `int` at a position in the buffer. */
    method ReadLengthAt(at: nat) returns (length: int)
      requires Readable() && !readOnly && headerSize <= at && at - headerSize + 4 <= |Payload()|
      ensures length == BufferLength(Payload(), at - headerSize)
    {
      hide Number, ToSigned, Pow256;
      PayloadRange(at, 4);
      length := ToSigned(Number(header[at..at + 4]), 4);
    }

    /** With the smallest header the data are the payload size and the payload. */
    lemma ImageSplits()
      requires Holds() && headerSize == SIZE_FIELD && !readOnly
      ensures Image() == LittleEndian(|Payload()|, 4) + Payload()
    {
      hide Number, LittleEndian;
      PayloadIsSlice();
      LittleEndianOfNumber(header[..SIZE_FIELD]);
      var (image, payload) := (Image(), Payload());
      assert image[..4] == header[..SIZE_FIELD] && image[4..] == payload;
      assert image == image[..4] + image[4..];
    }

    /** Bytes of the payload, where they are in the buffer. */
    lemma PayloadRange(at: nat, length: nat)
      requires Holds() && headerSize <= at && at + length <= headerSize + |Payload()|
      ensures header[at..at + length] == Payload()[at - headerSize..at - headerSize + length]
    {
      hide Number;
      SliceOfSlice(header[..], headerSize, headerSize + PayloadSize(), at - headerSize, at - headerSize + length);
    }

    lemma PayloadSizeIsSmall()
      requires Holds()
      ensures PayloadSize() < Pow256(4) == WRAP
    {
      Powers();
    }

    lemma PayloadIsSlice()
      requires Holds()
      ensures |Payload()| == PayloadSize() && headerSize + |Payload()| <= header.Length
      ensures Payload() == header[..][headerSize..headerSize + |Payload()|]
    {
      hide Number;
    }

    /** A smaller payload size, and a length in the payload that fits. */
    method TrimBuffer(size: nat, at: nat, length: nat)
      requires Writable() && size <= |Payload()| && headerSize <= at && at - headerSize + 4 + length <= size
      modifies header
      ensures Writable()
      ensures var (payload, start) := (old(Payload()), at - headerSize);
              Payload() == CutShort(payload, start, length, size)
    {
      hide CutShort, LittleEndian, Aligned, AlignInt, Pow256, Number;
      ghost var (before, payload) := (header[..], Payload());
      PayloadIsSlice();
      PayloadSizeIsSmall();
      StoreSizes(size, at, length);
      AlignedFits(headerSize, size, header.Length);
      PayloadIsSlice();
      TrimmedPayload(before, header[..], payload, headerSize, at, length, size);
    }

    /** Stores the payload size, and a shorter length at `at`. */
    method StoreSizes(size: nat, at: nat, length: nat)
      requires header != null && size < Pow256(4) && length < Pow256(4)
      requires SIZE_FIELD <= headerSize <= at && at + 4 <= header.Length
      modifies header
      ensures PayloadSize() == size && header[..][at..at + 4] == LittleEndian(length, 4)
      ensures header[..][headerSize..at] == old(header[..])[headerSize..at]
      ensures header[..][at + 4..] == old(header[..])[at + 4..]
    {
      hide LittleEndian, Pow256, Number;
      ghost var before := header[..];
      Store(0, size);
      ghost var mid := header[..];
      Store(at, length);
      TrimmedSlices(before, mid, header[..], headerSize, at,
                    LittleEndian(size, 4), LittleEndian(length, 4));
      NumberOfLittleEndian(size, 4);
      assert header[..SIZE_FIELD] == header[..][..4];
    }

    // ----- Reading: iterators are offsets from the header, None for NULL -----

    predicate ValidIterator(iter: Option<nat>)
      reads this
    {
      iter.Some? ==> headerSize <= iter.value
    }

    /** The place in the payload an iterator stands for. */
    ghost function Start(iter: Option<nat>): nat
      requires ValidIterator(iter)
      reads this
    {
      if iter.None? then 0 else iter.value - headerSize
    }

    method EndOfPayload() returns (end: nat)
      requires Readable()
      ensures end == headerSize + |Payload()|
    {
      end := if header == null then 0 else headerSize + PayloadSize();
    }

    /** For any position, also one in the header or before it. */
    method IteratorHasRoomFor(iter: int, length: int) returns (room: bool)
      requires Readable()
      ensures room <==> 0 <= iter && 0 <= length && iter + length <= headerSize + |Payload()|
      ensures headerSize <= iter ==> (room <==> HasRoom(Payload(), iter - headerSize, length))
    {
      var end := EndOfPayload();
      if length < 0 || iter < 0 || iter > end {
        return false;
      }
      room := iter + length <= end;
    }

    /** The bytes read; they stay in the pickle's buffer. */
    method ReadBytes(iter: Option<nat>, length: int) returns (bytes: Option<Bytes>, next: Option<nat>)
      requires Readable() && ValidIterator(iter)
      ensures next.Some? && ValidIterator(next)
      ensures (bytes, Start(next)) == ReadAt(Payload(), Start(iter), length)
    {
      hide Aligned, Number;
      var at := if iter.None? then headerSize else iter.value;
      var room := IteratorHasRoomFor(at, length);
      if !room {
        return None, Some(at);
      }
      if header == null {
        return Some([]), Some(at + Aligned(length));
      }
      PayloadRange(at, length);
      bytes := Some(header[at..at + length]);
      next := Some(at + Aligned(length));
    }

    method ReadUInt(iter: Option<nat>, width: nat) returns (n: Option<nat>, next: Option<nat>)
      requires Readable() && ValidIterator(iter)
      ensures next.Some? && ValidIterator(next)
      ensures (n, Start(next)) == ReadUnsigned(Payload(), Start(iter), width)
    {
      var bytes;
      bytes, next := ReadBytes(iter, width);
      n := if bytes.Some? then Some(Number(bytes.value)) else None;
    }

    method ReadInt(iter: Option<nat>, width: nat) returns (i: Option<int>, next: Option<nat>)
      requires Readable() && ValidIterator(iter)
      ensures next.Some? && ValidIterator(next)
      ensures (i, Start(next)) == ReadSigned(Payload(), Start(iter), width)
    {
      var n;
      n, next := ReadUInt(iter, width);
      i := if n.Some? then Some(ToSigned(n.value, width)) else None;
    }

    method ReadString(iter: Option<nat>) returns (bytes: Option<Bytes>, next: Option<nat>)
      requires Readable() && ValidIterator(iter)
      ensures next.Some? && ValidIterator(next)
      ensures (bytes, Start(next)) == ReadPrefixed(Payload(), Start(iter))
    {
      var length;
      length, next := ReadInt(iter, 4);
      if length.None? || length.value < 0 {
        return None, next;
      }
      bytes, next := ReadBytes(next, length.value);
    }

    method ReadValue(iter: Option<nat>, kind: Kind) returns (v: Option<Value>, next: Option<nat>)
      requires Readable() && ValidIterator(iter)
      ensures next.Some? && ValidIterator(next)
      ensures (v, Start(next)) == Read(Payload(), Start(iter), kind)
    {
      hide Readable, ReadAt, ReadPrefixed, ReadSigned, ReadUnsigned;
      var n: Option<nat>;
      var i: Option<int>;
      var bytes: Option<Bytes>;
      match kind {
        case BoolKind =>
          i, next := ReadInt(iter, 4);
          v := if i.Some? then Some(Bool(i.value != 0)) else None;
        case IntKind =>
          i, next := ReadInt(iter, 4);
          v := if i.Some? then Some(Int(i.value)) else None;
        case UInt16Kind =>
          n, next := ReadUInt(iter, 2);
          v := if n.Some? then Some(UInt16(n.value)) else None;
        case UInt32Kind =>
          n, next := ReadUInt(iter, 4);
          v := if n.Some? then Some(UInt32(n.value)) else None;
        case Int64Kind =>
          i, next := ReadInt(iter, 8);
          v := if i.Some? then Some(Int64(i.value)) else None;
        case UInt64Kind =>
          n, next := ReadUInt(iter, 8);
          v := if n.Some? then Some(UInt64(n.value)) else None;
        case RawKind(length) =>
          bytes, next := ReadBytes(iter, length);
          v := if bytes.Some? then Some(Raw(bytes.value)) else None;
        case StrKind =>
          bytes, next := ReadString(iter);
          v := if bytes.Some? then Some(Str(bytes.value)) else None;
        case DataKind =>
          bytes, next := ReadString(iter);
          v := if bytes.Some? then Some(Data(bytes.value)) else None;
      }
    }

    // ----- Copies -----

    /** A deep copy, of a view as well; it can be written to. */
    constructor Copy(other: Pickle, limit: HeapLimit)
      requires other.Holds()
      requires AlignInt(other.headerSize + other.PayloadSize(), PAYLOAD_UNIT) <= limit
      ensures Writable() && fresh(header) && heapLimit == limit
      ensures headerSize == other.headerSize && Image() == other.Image() && Payload() == other.Payload()
      ensures variableBufferOffset == other.variableBufferOffset
    {
      hide Number, AlignInt, Aligned;
      var buffer := CloneImage(other, limit);
      header := buffer;
      headerSize := other.headerSize;
      readOnly := false;
      variableBufferOffset := other.variableBufferOffset;
      heapLimit := limit;
    }

    /** Assignment from another pickle; a view becomes a pickle of its own. Assigning
        a pickle to itself is refused.  The buffer a pickle owns goes away before the
        copy, so `other` must not be a view of it. */
    method Assign(other: Pickle)
      requires Readable() && other.Holds()
      requires this == other || readOnly || other.header != header
      requires AlignInt(other.headerSize + other.PayloadSize(), PAYLOAD_UNIT) <= heapLimit
      modifies this
      ensures this == other ==>
                header == old(header) && headerSize == old(headerSize) && readOnly == old(readOnly)
                && variableBufferOffset == old(variableBufferOffset)
      ensures this != other ==>
                && Writable() && fresh(header)
                && headerSize == other.headerSize && Image() == other.Image() && Payload() == other.Payload()
                && variableBufferOffset == other.variableBufferOffset
    {
      hide Number, AlignInt, Aligned;
      if this == other {
        return;
      }
      if readOnly {
        header := null;
        readOnly := false;
      }
      if headerSize != other.headerSize {
        header := null;
        headerSize := other.headerSize;
      }
      header := CloneImage(other, heapLimit);
      variableBufferOffset := other.variableBufferOffset;
    }
  }

  /** A buffer of its own with the header and payload of a pickle. */
  method CloneImage(other: Pickle, limit: HeapLimit) returns (buffer: array<Byte>)
    requires other.Holds()
    requires AlignInt(other.headerSize + other.PayloadSize(), PAYLOAD_UNIT) <= limit
    ensures fresh(buffer) && buffer.Length % PAYLOAD_UNIT == 0 && buffer.Length <= limit
    ensures var size := other.headerSize + other.PayloadSize();
            && other.headerSize + Aligned(other.PayloadSize()) <= buffer.Length && size <= buffer.Length
            && buffer[..size] == other.header[..size]
            && buffer[..SIZE_FIELD] == other.header[..SIZE_FIELD]
            && buffer[other.headerSize..size] == other.header[other.headerSize..size]
  {
    hide Number, AlignInt, Aligned;
    var size := other.headerSize + other.PayloadSize();
    AlignIntIsLeast(size, PAYLOAD_UNIT, 0);
    buffer := new Byte[AlignInt(size, PAYLOAD_UNIT)];
    forall i | 0 <= i < size {
      buffer[i] := other.header[i];
    }
    assert buffer[..size] == other.header[..size];
    SliceOfPrefix(buffer[..], other.header[..], size, 0, SIZE_FIELD);
    SliceOfPrefix(buffer[..], other.header[..], size, other.headerSize, size);
    AlignedFits(other.headerSize, other.PayloadSize(), buffer.Length);
  }

  /** A view of a pickle's data deduces the pickle's own header size. */
  lemma ViewFindsHeader(headerSize: nat, image: Bytes)
    requires IsPickle(headerSize, image) && FitsSigned(|image|, 4)
    ensures DeducedHeaderSize(image) == headerSize
  {
    DeducedHeaderIsExact(image);
  }

  /** Viewing the data of a pickle, in place, shows the same payload. */
  method ViewOf(pickle: Pickle) returns (view: Pickle)
    requires pickle.Holds() && FitsSigned(pickle.headerSize + pickle.PayloadSize(), 4)
    ensures view.Readable() && view.readOnly && view.header == pickle.header
    ensures view.headerSize == pickle.headerSize && view.Payload() == pickle.Payload()
  {
    hide Number;
    var size := pickle.headerSize + pickle.PayloadSize();
    ghost var image := pickle.Image();
    assert image[..SIZE_FIELD] == pickle.header[..SIZE_FIELD];
    ViewFindsHeader(pickle.headerSize, image);
    view := new Pickle.View(pickle.header, size, pickle.heapLimit);
  }

  method WriteAll(pickle: Pickle, values: seq<Value>, ghost items: seq<Bytes>) returns (ok: bool)
    requires pickle.Writable() && AllFit(values) && Tracks(pickle.Payload(), items, pickle.heapLimit)
    modifies pickle`header, pickle.header
    ensures pickle.Writable() && (fresh(pickle.header) || pickle.header == old(pickle.header))
    ensures ok ==> Tracks(pickle.Payload(), items + AllItems(values), pickle.heapLimit)
    ensures pickle.Suffices(ItemsSize(items + AllItems(values))) ==> ok
    ensures ok && old(pickle.IsExactly(items)) ==> pickle.Exactly(items + AllItems(values))
  {
    hide pickle.IsExactly, Laid, Tracks, AllItems, Number, Aligned;
    NothingIsLaidOut();
    assert values[..0] == [] && items + [] == items;
    for i := 0 to |values|
      invariant pickle.Writable() && (fresh(pickle.header) || pickle.header == old(pickle.header))
      invariant Tracks(pickle.Payload(), items + AllItems(values[..i]), pickle.heapLimit)
      invariant old(pickle.IsExactly(items)) ==> pickle.Exactly(items + AllItems(values[..i]))
    {
      NextItems(items, values, i);
      ok := pickle.Write(values[i], items + AllItems(values[..i]));
      if !ok {
        return;
      }
    }
    assert values[..|values|] == values;
    ok := true;
  }

  lemma NextItems(items: seq<Bytes>, values: seq<Value>, i: nat)
    requires AllFit(values) && i < |values|
    ensures items + AllItems(values[..i]) + Items(values[i]) == items + AllItems(values[..i + 1])
    ensures ItemsSize(items + AllItems(values[..i + 1])) <= ItemsSize(items + AllItems(values))
    ensures |Laid(items + AllItems(values[..i]))| <= |Laid(items + AllItems(values[..i + 1]))|
  {
    hide AllItems, Items, ItemsSize;
    var (done, next, rest) := (values[..i], values[..i + 1], values[i + 1..]);
    assert next == done + [values[i]] && values == next + rest;
    AllItemsConcat(done, [values[i]]);
    AllItemsOfOne(values[i]);
    assert items + AllItems(done) + Items(values[i]) == items + (AllItems(done) + Items(values[i]));
    LaidGrows(items + AllItems(done), Items(values[i]));
    AllItemsConcat(next, rest);
    assert items + AllItems(next) + AllItems(rest) == items + (AllItems(next) + AllItems(rest));
    ItemsSizeConcat(items + AllItems(next), AllItems(rest));
  }

  /** The outcome of reading on, with the values read so far in front. */
  ghost function Resumed(read: seq<Value>, rest: (Option<seq<Value>>, nat)): (Option<seq<Value>>, nat) {
    (if rest.0.Some? then Some(read + rest.0.value) else None, rest.1)
  }

  lemma ResumedStep(payload: Bytes, pos: nat, kinds: seq<Kind>, read: seq<Value>)
    requires kinds != []
    ensures var (v, next) := Read(payload, pos, kinds[0]);
            Resumed(read, ReadAll(payload, pos, kinds)) ==
            if v.None? then (None, next) else Resumed(read + [v.value], ReadAll(payload, next, kinds[1..]))
  {
    hide Read;
    var (v, next) := Read(payload, pos, kinds[0]);
    if v.Some? {
      var (rest, _) := ReadAll(payload, next, kinds[1..]);
      assert rest.Some? ==> read + ([v.value] + rest.value) == read + [v.value] + rest.value;
    }
  }

  lemma ResumedEnds(payload: Bytes, pos: nat, kinds: seq<Kind>, read: seq<Value>)
    ensures Resumed([], ReadAll(payload, pos, kinds)) == ReadAll(payload, pos, kinds)
    ensures Resumed(read, ReadAll(payload, pos, [])) == (Some(read), pos)
  {
    var (all, _) := ReadAll(payload, pos, kinds);
    assert all.Some? ==> [] + all.value == all.value;
    assert read + [] == read;
  }

  /** Reads values of the given types one after the other from the start. */
  method ReadInOrder(pickle: Pickle, kinds: seq<Kind>) returns (values: Option<seq<Value>>, iter: Option<nat>)
    requires pickle.Readable()
    ensures pickle.ValidIterator(iter)
    ensures (values, pickle.Start(iter)) == ReadAll(pickle.Payload(), 0, kinds)
  {
    hide Read, ReadAll, Resumed;
    ghost var payload := pickle.Payload();
    iter := None;
    var read := [];
    assert kinds[0..] == kinds;
    ResumedEnds(payload, 0, kinds, []);
    for i := 0 to |kinds|
      invariant pickle.ValidIterator(iter)
      invariant Resumed(read, ReadAll(payload, pickle.Start(iter), kinds[i..])) == ReadAll(payload, 0, kinds)
    {
      assert kinds[i..][1..] == kinds[i + 1..];
      ResumedStep(payload, pickle.Start(iter), kinds[i..], read);
      var v, next := pickle.ReadValue(iter, kinds[i]);
      iter := next;
      if v.None? {
        return None, iter;
      }
      read := read + [v.value];
    }
    ResumedEnds(payload, pickle.Start(iter), [], read);
    values := Some(read);
  }

  /** Writing any values into a new pickle and reading their types back from the start
      gives the same values exactly if what they take stays below 2^32, the size being
      stored in 32 bits; nothing more can be read then.  Writing fails only where memory
      runs out, and memory that holds the values twice over does not. */
  method WriteThenRead(values: seq<Value>, size: nat, limit: HeapLimit)
    returns (ok: bool, back: Option<seq<Value>>, more: bool)
    requires AllFit(values) && SIZE_FIELD <= size <= PAYLOAD_UNIT
    ensures ok ==> (back == Some(values) <==> Extent(AllItems(values)) < WRAP)
    ensures ok && Extent(AllItems(values)) < WRAP ==> !more
    ensures ok && limit < WRAP ==> Extent(AllItems(values)) < WRAP
    ensures 2 * (Aligned(size) + ItemsSize(AllItems(values))) + PAYLOAD_UNIT <= limit ==> ok
  {
    hide Tracks, LaidOut, ReadAll, ReadAt, AllItems, Number, Aligned, Extent;
    var pickle := new Pickle(size, limit);
    NothingIsLaidOut();
    assert [] + AllItems(values) == AllItems(values);
    ok := WriteAll(pickle, values, []);
    var iter;
    back, iter := ReadInOrder(pickle, KindsOf(values));
    var byte, _ := pickle.ReadBytes(iter, 1);
    more := byte.Some?;
    if ok {
      pickle.PayloadSizeIsSmall();
      TracksReadsBack(pickle.Payload(), values, limit);
    }
  }

  /** The bytes of a pickle, with a text, a short number and a negative one in it. */
  method WriteExample() returns (image: Bytes)
    ensures image == [16, 0, 0, 0]
                     + ([3, 0, 0, 0] + [0x61, 0x62, 0x63] + [0] + [2, 1] + [0, 0] + [0xfe, 0xff, 0xff, 0xff])
  {
    hide Tracks, LaidOut, Laid, Number, Aligned, ItemsSize, LittleEndian, AllItems, AlignInt;
    ExampleBytes();
    ExampleNumbers();
    NothingIsLaidOut();
    FourIsAligned();
    var pickle := new Pickle(SIZE_FIELD, 1000);
    assert [] + AllItems(Example()) == AllItems(Example());
    var ok := WriteAll(pickle, Example(), []);
    pickle.ImageSplits();
    LaidSize(AllItems(Example()));
    image := pickle.header[..pickle.headerSize + pickle.PayloadSize()];
  }

  /** Four times 2^30 bytes are written, and their size is stored as 0. */
  method HugeValuesAreLost() returns (ok: bool, back: Option<seq<Value>>)
    ensures ok && back != Some(Huge())
  {
    HugeIsTooLarge();
    var more;
    ok, back, more := WriteThenRead(Huge(), SIZE_FIELD, 0x4_0000_0000);
  }

  /** What a trimmed buffer between other values needs while it is written. */
  function NeededToTrim(first: seq<Value>, length: nat, last: seq<Value>): nat
    requires AllFit(first) && AllFit(last)
  {
    ItemsSize(AllItems(first)) + 4 + Aligned(length) + ItemsSize(AllItems(last))
  }

  /** How far the payload reaches before the buffer is trimmed. */
  function UntrimmedSize(first: seq<Value>, length: nat): nat
    requires AllFit(first)
  {
    ItemsSize(AllItems(first)) + 4 + length
  }

  /** Writes values, a variable buffer filled with `data` and trimmed to `n` bytes, and
      more values. */
  method WriteTrimmed(pickle: Pickle, first: seq<Value>, data: Bytes, n: nat, last: seq<Value>) returns (ok: bool)
    requires pickle.Writable() && pickle.Payload() == [] && pickle.variableBufferOffset == 0
    requires AllFit(first) && AllFit(last) && n <= |data| && FitsSigned(|data|, 4)
    requires pickle.heapLimit < WRAP || UntrimmedSize(first, |data|) < WRAP
    modifies pickle`header, pickle`variableBufferOffset, pickle.header
    ensures pickle.Writable()
    ensures AllFit(first + [Data(data[..n])] + last)
    ensures ok ==> Tracks(pickle.Payload(), AllItems(first + [Data(data[..n])] + last), pickle.heapLimit)
    ensures pickle.Suffices(NeededToTrim(first, |data|, last)) ==> ok
  {
    hide Tracks, LaidOut, AllItems, Number, Aligned, LittleEndian, ItemsSize;
    NothingIsLaidOut();
    TrimmedItems(first, data, n, last);
    assert [] + AllItems(first) == AllItems(first);
    ok := WriteAll(pickle, first, []);
    if !ok {
      return;
    }
    var at := pickle.BeginWriteData(|data|, AllItems(first));
    if at == -1 {
      return false;
    }
    ghost var slot := pickle.header[at..at + |data|];
    BufferTracked(pickle.Payload(), AllItems(first), slot, pickle.heapLimit);
    pickle.FillTrimmed(at, data, n, AllItems(first));
    LaidOutTracks(pickle.Payload(), AllItems(first) + [LittleEndian(n, 4), data[..n]], pickle.heapLimit);
    ok := WriteAll(pickle, last, AllItems(first) + [LittleEndian(n, 4), data[..n]]);
  }

  /** Reading back finds what would be there had only the trimmed data been written. */
  method WriteTrimmedThenRead(first: seq<Value>, data: Bytes, n: nat, last: seq<Value>, size: nat, limit: HeapLimit)
    returns (ok: bool, back: Option<seq<Value>>)
    requires AllFit(first) && AllFit(last) && n <= |data| && FitsSigned(|data|, 4)
    requires SIZE_FIELD <= size <= PAYLOAD_UNIT
    requires limit < WRAP || UntrimmedSize(first, |data|) < WRAP
    ensures AllFit(first + [Data(data[..n])] + last)
    ensures ok ==> (back == Some(first + [Data(data[..n])] + last)
                    <==> Extent(AllItems(first + [Data(data[..n])] + last)) < WRAP)
    ensures 2 * (Aligned(size) + NeededToTrim(first, |data|, last)) + PAYLOAD_UNIT <= limit ==> ok
  {
    hide Tracks, LaidOut, ReadAll, AllItems, Number, Aligned, Extent;
    var pickle := new Pickle(size, limit);
    TrimmedItems(first, data, n, last);
    ok := WriteTrimmed(pickle, first, data, n, last);
    var all := first + [Data(data[..n])] + last;
    var end;
    back, end := ReadInOrder(pickle, KindsOf(all));
    if ok {
      pickle.PayloadSizeIsSmall();
      TracksReadsBack(pickle.Payload(), all, limit);
    }
  }

  /** What tracks the items of values gives them back exactly if it has room for them. */
  lemma TracksReadsBack(payload: Bytes, values: seq<Value>, limit: nat)
    requires AllFit(values) && Tracks(payload, AllItems(values), limit) && |payload| < WRAP
    ensures ReadAll(payload, 0, KindsOf(values)).0 == Some(values) <==> Extent(AllItems(values)) < WRAP
    ensures limit < WRAP ==> Extent(AllItems(values)) < WRAP
    ensures Extent(AllItems(values)) < WRAP ==>
              && ReadAll(payload, 0, KindsOf(values)).1 == Aligned(|payload|)
              && ReadAt(payload, Aligned(|payload|), 1).0.None?
  {
    assert Extent([]) == 0;
    hide LaidOut, ReadAll, ReadAt, AllItems, Aligned, KindsOf, Extent;
    AllItemsOfSome(values);
    if limit < WRAP || Extent(AllItems(values)) < WRAP {
      ReadsAllBack(payload, 0, values);
      if values != [] {
        LaidOutExtent(payload, 0, AllItems(values));
      }
    }
    if ReadAll(payload, 0, KindsOf(values)).0 == Some(values) {
      ReadsNeedRoom(payload, 0, values);
    }
  }

  function Huge(): seq<Value> {
    var bytes := seq(0x4000_0000, _ => 0);
    [Raw(bytes), Raw(bytes), Raw(bytes), Raw(bytes)]
  }

  lemma HugeIsTooLarge()
    ensures AllFit(Huge()) && Extent(AllItems(Huge())) == WRAP && ItemsSize(AllItems(Huge())) == WRAP
  {
    Powers();
    var bytes := seq(0x4000_0000, _ => 0);
    FourRaws(bytes);
    FourItems(bytes);
  }

  lemma FourRaws(bytes: Bytes)
    requires FitsSigned(|bytes|, 4)
    ensures var v := Raw(bytes);
            AllFit([v, v, v, v]) && AllItems([v, v, v, v]) == [bytes, bytes, bytes, bytes]
  {
    hide FitsSigned;
    var v := Raw(bytes);
    var two := [v, v];
    AllItemsOfOne(v);
    AllItemsConcat([v], [v]);
    assert [v] + [v] == two;
    AllItemsConcat(two, two);
    assert two + two == [v, v, v, v];
  }

  lemma FourItems(item: Bytes)
    requires |item| % 4 == 0
    ensures Extent([item, item, item, item]) == ItemsSize([item, item, item, item]) == 4 * |item|
  {
    AlignedIsFixed(|item|);
    hide Aligned;
    var one := [item];
    var two := [item, item];
    ExtentAppend([], item);
    ItemsSizeAppend([], item);
    assert [] + [item] == one;
    ExtentAppend(one, item);
    ItemsSizeAppend(one, item);
    assert one + [item] == two;
    ItemsSizeAppend(two, item);
    ExtentAppend(two + [item], item);
    ItemsSizeAppend(two + [item], item);
    assert two + [item] + [item] == [item, item, item, item];
  }

  lemma BufferTracked(payload: Bytes, items: seq<Bytes>, data: Bytes, limit: nat)
    requires Tracks(payload, items + [LittleEndian(|data|, 4), data], limit)
    requires limit < WRAP || ItemsSize(items) + 4 + |data| < WRAP
    ensures LaidOut(payload, 0, items + [LittleEndian(|data|, 4), data])
  {
    hide LaidOut, LittleEndian, Aligned;
    var len := LittleEndian(|data|, 4);
    assert items + [len, data] == items + [len] + [data];
    ExtentAppend(items + [len], data);
    ItemsSizeAppend(items, len);
    FourIsAligned();
  }

  lemma LaidOutTracks(payload: Bytes, items: seq<Bytes>, limit: nat)
    requires LaidOut(payload, 0, items)
    ensures Tracks(payload, items, limit)
  {
    LaidOutSize(payload, 0, items);
  }

  lemma TrimmedItems(first: seq<Value>, data: Bytes, n: nat, last: seq<Value>)
    requires AllFit(first) && AllFit(last) && n <= |data| && FitsSigned(|data|, 4)
    ensures var all := first + [Data(data[..n])] + last;
            && AllFit(all)
            && AllItems(all) == AllItems(first) + [LittleEndian(n, 4), data[..n]] + AllItems(last)
            && ItemsSize(AllItems(all)) <= NeededToTrim(first, |data|, last)
            && ItemsSize(AllItems(first)) + 4 + Aligned(|data|) <= NeededToTrim(first, |data|, last)
  {
    hide AllItems, LittleEndian, Aligned;
    var d := Data(data[..n]);
    var items := [LittleEndian(n, 4), data[..n]];
    assert Fits(d) && Items(d) == items;
    AllItemsOfOne(d);
    AllItemsConcat(first, [d]);
    AllItemsConcat(first + [d], last);
    ItemsSizeConcat(AllItems(first), items);
    ItemsSizeConcat(AllItems(first) + items, AllItems(last));
    FourIsAligned();
    assert items[1..] == [data[..n]] && [data[..n]][1..] == [];
    assert ItemsSize([data[..n]]) == Aligned(n);
    assert AllItems(first) + items + AllItems(last) == AllItems(first) + (items + AllItems(last));
    AlignedGrows(n, |data|);
  }

  /** The first `length` bytes, none if it is negative. */
  function Prefix(data: Bytes, length: int): Bytes
    requires length <= |data|
  {
    data[..if length < 0 then 0 else length]
  }

  lemma NothingIsLaidOut()
    ensures LaidOut([], 0, []) && AllItems([]) == [] && forall limit :: Tracks([], [], limit)
  {
  }

  lemma AllItemsOfOne(v: Value)
    requires Fits(v)
    ensures AllItems([v]) == Items(v)
  {
    assert Items(v) + [] == Items(v);
  }

  lemma TrimmedSlices(before: Bytes, mid: Bytes, after: Bytes, start: nat, at: nat, size: Bytes, length: Bytes)
    requires 4 <= start <= at && at + 4 <= |before| && |size| == |length| == 4
    requires mid == size + before[4..] && after == mid[..at] + length + mid[at + 4..]
    ensures |after| == |before| && after[..4] == size
    ensures after[start..at] == before[start..at] && after[at..at + 4] == length
    ensures after[at + 4..] == before[at + 4..]
  {
    assert |mid| == |before|;
    assert forall i | 4 <= i < |mid| :: mid[i] == before[i];
    assert forall i | 0 <= i < at :: after[i] == mid[i];
    assert forall i | at + 4 <= i < |after| :: after[i] == mid[i];
    assert forall i | 0 <= i < 4 :: after[i] == size[i];
  }

  lemma TrimmedPayload(before: Bytes, after: Bytes, payload: Bytes, start: nat, at: nat, n: nat, size: nat)
    requires start <= at && at + 4 <= start + size && size <= |payload| && start + |payload| <= |before| == |after|
    requires payload == before[start..start + |payload|]
    requires after[start..at] == before[start..at] && after[at + 4..] == before[at + 4..]
    requires after[at..at + 4] == LittleEndian(n, 4)
    ensures after[start..start + size] == CutShort(payload, at - start, n, size)
  {
    var end := start + size;
    SliceOfSlice(before, start, start + |payload|, 0, at - start);
    SliceOfSlice(before, start, start + |payload|, at - start + 4, size);
    assert before[at + 4..][..end - at - 4] == before[at + 4..end];
    assert after[at + 4..][..end - at - 4] == after[at + 4..end];
    SlicesJoin(after, start, at, at + 4, end);
  }

  lemma SlicesJoin(s: Bytes, a: nat, b: nat, c: nat, d: nat)
    requires a <= b <= c <= d <= |s|
    ensures s[a..d] == s[a..b] + s[b..c] + s[c..d]
  {
    var (x, y, z) := (s[a..b], s[b..c], s[c..d]);
    forall i | 0 <= i < d - a ensures s[a..d][i] == (x + y + z)[i] {
      assert s[a..d][i] == s[a + i];
    }
  }

  lemma StoredInFront(before: Bytes, after: Bytes, front: Bytes, from: nat, to: nat)
    requires |front| <= from <= to <= |before| && after == before[..0] + front + before[|front|..]
    ensures |after| == |before| && after[..|front|] == front && after[from..to] == before[from..to]
  {
    var (x, y) := (after[from..to], before[from..to]);
    assert forall i | 0 <= i < |x| :: x[i] == after[from + i] == before[from + i] == y[i];
  }

  /** The payload of a buffer in which the end, from `at` on, was overwritten. */
  lemma FilledPayload(before: Bytes, after: Bytes, start: nat, at: nat, data: Bytes)
    requires start <= at && at + |data| <= |before| == |after|
    requires after[..at] == before[..at] && after[at..at + |data|] == data
    ensures var (payload, payload', split) := (before[start..at + |data|], after[start..at + |data|], at - start);
            |payload| == |payload'| && payload'[..split] == payload[..split] && payload'[split..] == data
    ensures SIZE_FIELD <= start ==> after[..SIZE_FIELD] == before[..SIZE_FIELD]
  {
    var end := at + |data|;
    SliceOfSlice(before, start, end, 0, at - start);
    SliceOfSlice(after, start, end, 0, at - start);
    SliceOfSlice(after, start, end, at - start, end - start);
    SliceOfPrefix(before, after, at, start, at);
    if SIZE_FIELD <= start {
      SliceOfPrefix(before, after, at, 0, SIZE_FIELD);
    }
  }

  lemma SliceOfSlice(s: Bytes, a: nat, b: nat, c: nat, d: nat)
    requires a <= b <= |s| && c <= d <= b - a
    ensures s[a..b][c..d] == s[a + c..a + d]
  {
    var (x, y) := (s[a..b][c..d], s[a + c..a + d]);
    assert |x| == |y|;
    forall i | 0 <= i < |x| ensures x[i] == y[i] {
      assert x[i] == s[a..b][c + i];
    }
  }

  lemma AppendsInBuffer(before: Bytes, after: Bytes, start: nat, size: nat, data: Bytes)
    requires SIZE_FIELD <= start && start + size <= |before|
    requires start + Aligned(size) + |data| <= |after|
    requires before[SIZE_FIELD..start + size] == after[SIZE_FIELD..start + size]
    requires var at := start + Aligned(size); after[at..at + |data|] == data
    ensures Appends(before[start..start + size], data, after[start..start + Aligned(size) + |data|])
    ensures after[SIZE_FIELD..start] == before[SIZE_FIELD..start]
  {
    hide Aligned;
    var (end, gap) := (start + Aligned(size) + |data|, start - SIZE_FIELD);
    SliceOfSlice(before, SIZE_FIELD, start + size, gap, gap + size);
    SliceOfSlice(after, SIZE_FIELD, start + size, gap, gap + size);
    SliceOfSlice(before, SIZE_FIELD, start + size, 0, gap);
    SliceOfSlice(after, SIZE_FIELD, start + size, 0, gap);
    SliceOfSlice(after, start, end, 0, size);
    SliceOfSlice(after, start, end, Aligned(size), end - start);
    var payload := after[start..end];
    assert payload[Aligned(size)..] == payload[Aligned(size)..|payload|];
  }

  /** A payload in a buffer, cut where its stored size says. */
  lemma WrappedInBuffer(payload: Bytes, data: Bytes, after: Bytes, start: nat)
    requires start + Aligned(|payload|) + |data| <= |after|
    requires Appends(payload, data, after[start..start + Aligned(|payload|) + |data|])
    ensures AppendsWrapped(payload, data, after[start..start + Stored(Aligned(|payload|) + |data|)])
  {
    hide Appends, AppendsWrapped, Aligned, Stored;
    var size := Aligned(|payload|) + |data|;
    var full := after[start..start + size];
    CutToStored(payload, data, full);
    SliceOfSlice(after, start, start + size, 0, Stored(size));
    assert full[..Stored(size)] == full[0..Stored(size)];
  }

  /** A buffer in which an item was written behind a payload of `size` bytes. */
  lemma WrittenBehind(before: Bytes, grown: Bytes, after: Bytes, start: nat, size: nat, data: Bytes)
    requires SIZE_FIELD <= start && start + size <= |before|
    requires start + Aligned(size) + |data| <= |grown| == |after|
    requires grown[SIZE_FIELD..start + size] == before[SIZE_FIELD..start + size]
    requires var at := start + Aligned(size); after[..at] == grown[..at] && after[at..at + |data|] == data
    ensures after[..SIZE_FIELD] == grown[..SIZE_FIELD] && after[SIZE_FIELD..start] == before[SIZE_FIELD..start]
    ensures AppendsWrapped(before[start..start + size], data, after[start..start + Stored(Aligned(size) + |data|)])
  {
    hide Aligned, Appends, AppendsWrapped, Stored;
    var at := start + Aligned(size);
    SliceOfPrefix(grown, after, at, 0, SIZE_FIELD);
    SliceOfPrefix(grown, after, at, SIZE_FIELD, start + size);
    AppendsInBuffer(before, after, start, size, data);
    WrappedInBuffer(before[start..start + size], data, after, start);
  }

  /** The same behind the size field, up to a position. */
  predicate Agree(before: Bytes, after: Bytes, to: nat) {
    SIZE_FIELD <= to <= |before| && to <= |after| && after[SIZE_FIELD..to] == before[SIZE_FIELD..to]
  }

  lemma AgreeLess(before: Bytes, after: Bytes, to: nat, less: nat)
    requires Agree(before, after, to) && SIZE_FIELD <= less <= to
    ensures Agree(before, after, less)
  {
    SliceOfSlice(before, SIZE_FIELD, to, 0, less - SIZE_FIELD);
    SliceOfSlice(after, SIZE_FIELD, to, 0, less - SIZE_FIELD);
  }

  predicate ZerosIn(buffer: Bytes, from: nat, to: nat) {
    to <= |buffer| && forall i | from <= i < to :: buffer[i] == 0
  }

  /** A buffer in which data was written behind the filling of a payload. */
  lemma WrittenNeatly(before: Bytes, after: Bytes, start: nat, size: nat, data: Bytes)
    requires SIZE_FIELD <= start && start % 4 == 0 && start + Aligned(size) <= |before|
    requires start + Aligned(size) + |data| <= |after|
    requires after[SIZE_FIELD..start + Aligned(size)] == before[SIZE_FIELD..start + Aligned(size)]
    requires var at := start + Aligned(size); after[at..at + |data|] == data
    ensures ZerosIn(before, start + size, start + Aligned(size)) ==>
              after[start..start + Aligned(size) + |data|] == before[start..start + size] + Filling(size) + data
  {
    hide Aligned;
    if ZerosIn(before, start + size, start + Aligned(size)) {
      var (at, gap) := (start + Aligned(size), start - SIZE_FIELD);
      assert before[start + size..at] == Filling(size);
      hide *;
      SliceOfSlice(before, SIZE_FIELD, at, gap, at - SIZE_FIELD);
      SliceOfSlice(after, SIZE_FIELD, at, gap, at - SIZE_FIELD);
      TwoSlices(before, start, start + size, at);
      TwoSlices(after, start, at, at + |data|);
    }
  }

  lemma TwoSlices(s: Bytes, a: nat, b: nat, c: nat)
    requires a <= b <= c <= |s|
    ensures s[a..c] == s[a..b] + s[b..c]
  {
  }

  lemma AlignedFits(start: nat, n: nat, capacity: nat)
    requires start % 4 == 0 && capacity % PAYLOAD_UNIT == 0 && start + n <= capacity
    ensures start + Aligned(n) <= capacity
  {
    hide AlignInt, Aligned;
    var (s, a, q) := (start / 4, Aligned(n) / 4, capacity / PAYLOAD_UNIT);
    assert start == 4 * s && Aligned(n) == 4 * a && capacity == 64 * q;
    assert s + a < 16 * q + 1;
  }

  /** Some item of a given length. */
  ghost function ZeroItem(length: nat): (item: Bytes)
    ensures |item| == length
  {
    seq(length, _ => 0)
  }

  function Max(a: nat, b: nat): nat {
    if a < b then b else a
  }

  lemma ZeroBytes()
    ensures LittleEndian(0, 4) == [0, 0, 0, 0]
  {
    assert LittleEndian(0, 1) == [0] && LittleEndian(0, 3) == [0, 0, 0];
  }
}
