/**
 When trimming a variable buffer that is not the last item is harmless: what lies
 behind it does not move, and as much as the buffer loses is cut off the payload's end.
 */
module PickleTrimming {
  import opened PickleFormat

  /** After trimming to `n` bytes the buffer at `at`, the payload holds `items`. */
  predicate TrimsTo(payload: Bytes, at: nat, n: nat, items: seq<Bytes>) {
    && HoldsBuffer(payload, at) && n <= BufferLength(payload, at)
    && LaidOut(Trimmed(payload, at, n), 0, items)
  }

  function WithBuffer(items: seq<Bytes>, data: Bytes, rest: seq<Bytes>): seq<Bytes> {
    items + ([LittleEndian(|data|, 4), data] + rest)
  }

  /** Whatever the buffer of `length` bytes holds, trimming it to `n` bytes leaves the
      other items alone. */
  ghost predicate Harmless(items: seq<Bytes>, length: nat, n: nat, rest: seq<Bytes>) {
    forall data: Bytes, payload: Bytes ::
      |data| == length && n <= |data| && LaidOut(payload, 0, WithBuffer(items, data, rest)) ==>
        TrimsTo(payload, ItemsSize(items), n, WithBuffer(items, data[..n], rest))
  }

  predicate AllEmpty(items: seq<Bytes>) {
    forall r | r in items :: r == []
  }

  // ----- Layouts in parts -----

  /** The items stand where they belong; more may follow. */
  predicate Placed(payload: Bytes, pos: nat, items: seq<Bytes>)
    decreases |items|
  {
    items == [] ||
    (&& pos + |items[0]| <= |payload|
     && payload[pos..pos + |items[0]|] == items[0]
     && Placed(payload, pos + Aligned(|items[0]|), items[1..]))
  }

  lemma {:induction false} LaidOutParts(payload: Bytes, pos: nat, a: seq<Bytes>, b: seq<Bytes>)
    requires b != []
    ensures LaidOut(payload, pos, a + b) <==> Placed(payload, pos, a) && LaidOut(payload, pos + ItemsSize(a), b)
    decreases |a|
  {
    hide Aligned;
    if a == [] {
      assert a + b == b;
    } else {
      var next := pos + Aligned(|a[0]|);
      assert (a + b)[0] == a[0] && (a + b)[1..] == a[1..] + b;
      LaidOutParts(payload, next, a[1..], b);
    }
  }

  /** Only the bytes in front decide where the items in front stand. */
  lemma {:induction false} PlacedAgain(p: Bytes, p': Bytes, pos: nat, items: seq<Bytes>, end: nat)
    requires Placed(p, pos, items) && pos + ItemsSize(items) <= end <= |p| && end <= |p'|
    requires p'[..end] == p[..end]
    ensures Placed(p', pos, items)
    decreases |items|
  {
    hide Aligned;
    if items != [] {
      SliceOfPrefix(p, p', end, pos, pos + |items[0]|);
      PlacedAgain(p, p', pos + Aligned(|items[0]|), items[1..], end);
    }
  }

  /** There is a payload for any items. */
  lemma {:induction false} SomeLayout(items: seq<Bytes>) returns (payload: Bytes)
    ensures LaidOut(payload, 0, items)
    decreases |items|
  {
    if items == [] {
      payload := [];
    } else {
      var (front, last) := (items[..|items| - 1], items[|items| - 1]);
      var before := SomeLayout(front);
      hide LaidOut, Aligned;
      payload := before + Zeros(Aligned(|before|) - |before|) + last;
      assert Appends(before, last, payload);
      AppendLaysOut(before, 0, front, last, payload);
      assert items == front + [last];
    }
  }

  function Zeros(n: nat): (z: Bytes)
    ensures |z| == n
  {
    seq(n, _ => 0)
  }

  // ----- The items behind the buffer -----

  lemma LastEmpty(payload: Bytes, pos: nat, rest: seq<Bytes>)
    requires |rest| == 1 && rest[0] == [] && pos % 4 == 0
    ensures LaidOut(payload, pos, rest) <==> pos == |payload|
  {
    FourIsAligned();
    AlignedIsFixed(pos);
    hide Aligned;
    assert |rest[1..]| == 0;
    assert pos == |payload| ==> payload[pos..pos + 0] == [];
  }

  lemma {:induction false} EmptiesAreAtTheEnd(payload: Bytes, pos: nat, rest: seq<Bytes>)
    requires AllEmpty(rest) && rest != [] && pos % 4 == 0
    ensures LaidOut(payload, pos, rest) <==> pos == |payload|
    decreases |rest|
  {
    FourIsAligned();
    hide Aligned;
    assert rest[0] in rest;
    if |rest| == 1 {
      LastEmpty(payload, pos, rest);
    } else {
      assert forall r | r in rest[1..] :: r in rest;
      EmptiesAreAtTheEnd(payload, pos, rest[1..]);
      assert LaidOut(payload, pos, rest) <==> pos <= |payload| && LaidOut(payload, pos, rest[1..]);
    }
  }

  /** The first byte of the first item that has one. */
  function FirstByte(rest: seq<Bytes>): Byte
    requires !AllEmpty(rest)
  {
    if rest[0] != [] then rest[0][0] else
    assert rest == [rest[0]] + rest[1..];
    FirstByte(rest[1..])
  }

  lemma {:induction false} FirstByteStands(payload: Bytes, pos: nat, rest: seq<Bytes>)
    requires !AllEmpty(rest) && LaidOut(payload, pos, rest)
    ensures pos < |payload| && payload[pos] == FirstByte(rest)
    decreases |rest|
  {
    FourIsAligned();
    hide Aligned;
    if rest[0] == [] {
      assert rest == [rest[0]] + rest[1..];
      FirstByteStands(payload, pos, rest[1..]);
    } else {
      assert payload[pos..pos + |rest[0]|][0] == payload[pos];
    }
  }

  // ----- What trimming does to a layout -----

  /** The buffer's place. */
  lemma BufferStands(payload: Bytes, items: seq<Bytes>, data: Bytes, rest: seq<Bytes>)
    requires LaidOut(payload, 0, WithBuffer(items, data, rest))
    ensures var at := ItemsSize(items);
            && at % 4 == 0 && at + 4 + |data| <= |payload| && Placed(payload, 0, items)
            && payload[at..at + 4] == LittleEndian(|data|, 4) && payload[at + 4..at + 4 + |data|] == data
  {
    hide LittleEndian, Aligned, LaidOut, Placed, Extent, WithBuffer, ItemsSize;
    BufferStandsBehind(payload, items, data, rest);
    FrontStands(payload, ItemsSize(items), LittleEndian(|data|, 4), data, rest);
  }

  lemma FrontStands(payload: Bytes, at: nat, len: Bytes, data: Bytes, rest: seq<Bytes>)
    requires |len| == 4 && at % 4 == 0 && LaidOut(payload, at, [len, data] + rest)
    ensures at + 4 + |data| <= |payload|
    ensures payload[at..at + 4] == len
    ensures payload[at + 4..at + 4 + |data|] == data
  {
    hide LaidOut, Aligned, Extent;
    BufferInFront(payload, at, len, data, rest);
  }

  lemma BufferStandsBehind(payload: Bytes, items: seq<Bytes>, data: Bytes, rest: seq<Bytes>)
    requires LaidOut(payload, 0, WithBuffer(items, data, rest))
    ensures var tail := [LittleEndian(|data|, 4), data] + rest;
            Placed(payload, 0, items) && LaidOut(payload, ItemsSize(items), tail) && ItemsSize(items) % 4 == 0
  {
    hide LittleEndian, Aligned, LaidOut, Placed;
    var tail := [LittleEndian(|data|, 4), data] + rest;
    LaidOutParts(payload, 0, items, tail);
    LaidOutIsAligned(payload, ItemsSize(items), tail);
  }

  /** How long the payload is, and what stands behind the buffer. */
  lemma BufferEnds(payload: Bytes, items: seq<Bytes>, data: Bytes, rest: seq<Bytes>)
    requires LaidOut(payload, 0, WithBuffer(items, data, rest))
    ensures var end := ItemsSize(items) + 4;
            if rest == [] then |payload| == end + |data|
            else |payload| == end + Aligned(|data|) + Extent(rest) && LaidOut(payload, end + Aligned(|data|), rest)
  {
    hide LittleEndian, Aligned, LaidOut, Placed, Extent;
    BufferStandsBehind(payload, items, data, rest);
    BufferInFront(payload, ItemsSize(items), LittleEndian(|data|, 4), data, rest);
  }

  /** The buffer's length is found in front of it. */
  lemma BufferHeld(payload: Bytes, items: seq<Bytes>, data: Bytes, rest: seq<Bytes>)
    requires FitsSigned(|data|, 4) && LaidOut(payload, 0, WithBuffer(items, data, rest))
    ensures HoldsBuffer(payload, ItemsSize(items)) && BufferLength(payload, ItemsSize(items)) == |data|
  {
    hide LittleEndian, LaidOut, Number, ToSigned, Pow256;
    BufferStands(payload, items, data, rest);
    SignedLength(|data|);
  }

  lemma BufferInFront(payload: Bytes, at: nat, len: Bytes, data: Bytes, rest: seq<Bytes>)
    requires |len| == 4 && at % 4 == 0
    ensures LaidOut(payload, at, [len, data] + rest) <==>
            && at + 4 + |data| <= |payload|
            && payload[at..at + 4] == len && payload[at + 4..at + 4 + |data|] == data
            && (if rest == [] then at + 4 + |data| == |payload|
                else LaidOut(payload, at + 4 + Aligned(|data|), rest))
    ensures LaidOut(payload, at, [len, data] + rest) && rest != [] ==>
            |payload| == at + 4 + Aligned(|data|) + Extent(rest)
  {
    hide LaidOut, Aligned;
    var two := [len, data];
    if rest == [] {
      assert two + rest == two;
      LastTwoItems(payload, at, len, data);
      if at + 4 + |data| == |payload| {
        assert payload[at + 4..] == payload[at + 4..at + 4 + |data|];
      }
    } else {
      LaidOutParts(payload, at, two, rest);
      TwoPlaced(payload, at, len, data);
      if LaidOut(payload, at + ItemsSize(two), rest) {
        LaidOutExtent(payload, at + ItemsSize(two), rest);
      }
    }
  }

  lemma TwoPlaced(payload: Bytes, at: nat, len: Bytes, data: Bytes)
    requires |len| == 4
    ensures ItemsSize([len, data]) == 4 + Aligned(|data|)
    ensures Placed(payload, at, [len, data]) <==>
            && at + 4 + |data| <= |payload|
            && payload[at..at + 4] == len && payload[at + 4..at + 4 + |data|] == data
  {
    FourIsAligned();
    hide Aligned;
    var one := [data];
    assert [len, data][1..] == one && |one[1..]| == 0;
    assert ItemsSize(one) == Aligned(|data|);
    assert Placed(payload, at + 4, one) <==>
           at + 4 + |data| <= |payload| && payload[at + 4..at + 4 + |data|] == data;
  }

  lemma TrimmedShape(payload: Bytes, at: nat, n: nat)
    requires HoldsBuffer(payload, at) && n <= BufferLength(payload, at)
    ensures var (p', cut) := (Trimmed(payload, at, n), BufferLength(payload, at) - n);
            && |p'| == |payload| - cut && at + 4 <= |p'|
            && p'[..at] == payload[..at] && p'[at..at + 4] == LittleEndian(n, 4)
            && p'[at + 4..] == payload[at + 4..|payload| - cut]
  {
    hide BufferLength, LittleEndian;
  }

  lemma SameFilling(a: nat, b: nat)
    ensures Aligned(a) - a == Aligned(b) - b <==> a % 4 == b % 4
  {
    assert Aligned(a) - a == (4 - a % 4) % 4 && Aligned(b) - b == (4 - b % 4) % 4;
  }

  // ----- Where it is harmless -----

  /** Nothing is cut off. */
  lemma FullLengthKept(payload: Bytes, items: seq<Bytes>, data: Bytes, rest: seq<Bytes>)
    requires FitsSigned(|data|, 4) && LaidOut(payload, 0, WithBuffer(items, data, rest))
    ensures TrimsTo(payload, ItemsSize(items), |data|, WithBuffer(items, data[..|data|], rest))
  {
    hide LaidOut, LittleEndian, WithBuffer, FitsSigned;
    var at := ItemsSize(items);
    BufferStands(payload, items, data, rest);
    BufferHeld(payload, items, data, rest);
    hide BufferLength;
    assert data[..|data|] == data;
    assert payload == payload[..at] + payload[at..at + 4] + payload[at + 4..|payload|];
    assert Trimmed(payload, at, |data|) == payload;
  }

  /** The trimmed payload is laid out as it should be once its end is right. */
  lemma TrimmedInFront(payload: Bytes, items: seq<Bytes>, data: Bytes, n: nat, rest: seq<Bytes>)
    requires FitsSigned(|data|, 4) && LaidOut(payload, 0, WithBuffer(items, data, rest)) && n <= |data|
    requires HoldsBuffer(payload, ItemsSize(items)) && BufferLength(payload, ItemsSize(items)) == |data|
    requires var (p', end) := (Trimmed(payload, ItemsSize(items), n), ItemsSize(items) + 4);
             if rest == [] then |p'| == end + n
             else |p'| >= end + n && LaidOut(p', end + Aligned(n), rest)
    ensures TrimsTo(payload, ItemsSize(items), n, WithBuffer(items, data[..n], rest))
  {
    hide LaidOut, LittleEndian, BufferLength, Aligned, Placed, ItemsSize, Extent;
    var at := ItemsSize(items);
    var p' := Trimmed(payload, at, n);
    BufferStands(payload, items, data, rest);
    TrimmedShape(payload, at, n);
    hide Trimmed;
    PlacedAgain(payload, p', 0, items, at);
    StillInBuffer(payload, p', at + 4, data, n);
    BufferInFront(p', at, LittleEndian(n, 4), data[..n], rest);
    LaidOutParts(p', 0, items, [LittleEndian(n, 4), data[..n]] + rest);
  }

  lemma StillInBuffer(payload: Bytes, p': Bytes, start: nat, data: Bytes, n: nat)
    requires n <= |data| && start + |data| <= |payload| && start + n <= |p'| <= |payload|
    requires payload[start..start + |data|] == data && p'[start..] == payload[start..|p'|]
    ensures p'[start..start + n] == data[..n]
  {
    assert p'[start..start + n] == p'[start..][..n];
    assert payload[start..|p'|][..n] == payload[start..start + n];
    assert data[..n] == payload[start..start + |data|][..n] == payload[start..start + n];
  }

  lemma EmptiesKept(payload: Bytes, items: seq<Bytes>, data: Bytes, n: nat, rest: seq<Bytes>)
    requires FitsSigned(|data|, 4) && LaidOut(payload, 0, WithBuffer(items, data, rest)) && n <= |data|
    requires rest == [] || (AllEmpty(rest) && |data| % 4 == n % 4)
    ensures TrimsTo(payload, ItemsSize(items), n, WithBuffer(items, data[..n], rest))
  {
    hide LaidOut, LittleEndian, Aligned, Placed, ItemsSize, WithBuffer, AllEmpty, BufferLength, FitsSigned;
    var at := ItemsSize(items);
    BufferStands(payload, items, data, rest);
    BufferHeld(payload, items, data, rest);
    TrimmedShape(payload, at, n);
    hide Trimmed, Extent;
    BufferEnds(payload, items, data, rest);
    if rest != [] {
      EmptiesMove(payload, Trimmed(payload, at, n), at + 4, |data|, n, rest);
    }
    TrimmedInFront(payload, items, data, n, rest);
  }

  lemma EmptiesMove(payload: Bytes, p': Bytes, start: nat, length: nat, n: nat, rest: seq<Bytes>)
    requires AllEmpty(rest) && rest != [] && start % 4 == 0 && n <= length && length % 4 == n % 4
    requires |p'| == |payload| - (length - n) && LaidOut(payload, start + Aligned(length), rest)
    ensures |p'| >= start + n && LaidOut(p', start + Aligned(n), rest)
  {
    hide LaidOut, Aligned, AllEmpty;
    SameFilling(length, n);
    EmptiesAreAtTheEnd(payload, start + Aligned(length), rest);
    EmptiesAreAtTheEnd(p', start + Aligned(n), rest);
  }

  // ----- Where it is not -----

  /** If the layout survives, the two lengths agree modulo 4, and where the buffer
      ended the first byte behind it now stands. */
  lemma SurvivorsAgree(payload: Bytes, items: seq<Bytes>, data: Bytes, n: nat, rest: seq<Bytes>)
    requires FitsSigned(|data|, 4) && LaidOut(payload, 0, WithBuffer(items, data, rest)) && n < |data|
    requires rest != [] && TrimsTo(payload, ItemsSize(items), n, WithBuffer(items, data[..n], rest))
    ensures |data| % 4 == n % 4 && Aligned(n) < |data|
    ensures !AllEmpty(rest) ==> data[Aligned(n)] == FirstByte(rest)
  {
    hide LaidOut, LittleEndian, Aligned, Placed, ItemsSize, WithBuffer, AllEmpty, FirstByte;
    var at := ItemsSize(items);
    BufferStands(payload, items, data, rest);
    BufferHeld(payload, items, data, rest);
    BufferEnds(payload, items, data, rest);
    hide BufferLength;
    TrimmedShape(payload, at, n);
    var p' := Trimmed(payload, at, n);
    hide Trimmed;
    BufferEnds(p', items, data[..n], rest);
    SameFilling(|data|, n);
    AlignedIsLess(n, |data|);
    if !AllEmpty(rest) {
      FirstByteStands(p', at + 4 + Aligned(n), rest);
      ByteOfBuffer(payload, p', at + 4, data, Aligned(n));
    }
  }

  lemma AlignedIsLess(n: nat, length: nat)
    requires n < length && n % 4 == length % 4
    ensures Aligned(n) < length
  {
    assert length >= n + 4;
  }

  lemma ByteOfBuffer(payload: Bytes, p': Bytes, start: nat, data: Bytes, k: nat)
    requires k < |data| && start + |data| <= |payload| && start + k < |p'| <= |payload|
    requires payload[start..start + |data|] == data && p'[start..] == payload[start..|p'|]
    ensures p'[start + k] == data[k]
  {
    assert p'[start + k] == p'[start..][k] == payload[start..|p'|][k] == payload[start + k];
    assert data[k] == payload[start..start + |data|][k];
  }

  /** A buffer and a payload that trimming spoils. */
  lemma Spoiled(items: seq<Bytes>, length: nat, n: nat, rest: seq<Bytes>) returns (data: Bytes, payload: Bytes)
    requires FitsSigned(length, 4) && n < length && rest != []
    requires length % 4 != n % 4 || !AllEmpty(rest)
    ensures |data| == length && LaidOut(payload, 0, WithBuffer(items, data, rest))
    ensures !TrimsTo(payload, ItemsSize(items), n, WithBuffer(items, data[..n], rest))
  {
    hide LaidOut, LittleEndian, Aligned, Placed, ItemsSize, WithBuffer, AllEmpty, FirstByte, TrimsTo, FitsSigned;
    var b: Byte := if !AllEmpty(rest) && FirstByte(rest) == 0 then 1 else 0;
    data := seq(length, _ => b);
    payload := SomeLayout(WithBuffer(items, data, rest));
    if TrimsTo(payload, ItemsSize(items), n, WithBuffer(items, data[..n], rest)) {
      SurvivorsAgree(payload, items, data, n, rest);
    }
  }

  /** Exactly when trimming is harmless whatever the buffer holds: the length stays, or
      nothing is behind the buffer, or only empty items are and the lengths agree
      modulo 4. */
  lemma TrimmingIsHarmless(items: seq<Bytes>, length: nat, n: nat, rest: seq<Bytes>)
    requires FitsSigned(length, 4) && n <= length
    ensures Harmless(items, length, n, rest) <==>
            n == length || rest == [] || (AllEmpty(rest) && length % 4 == n % 4)
  {
    hide LaidOut, LittleEndian, Aligned, Placed, ItemsSize, WithBuffer, AllEmpty, TrimsTo, FitsSigned;
    if n == length || rest == [] || (AllEmpty(rest) && length % 4 == n % 4) {
      forall data: Bytes, payload: Bytes |
        |data| == length && n <= |data| && LaidOut(payload, 0, WithBuffer(items, data, rest))
        ensures TrimsTo(payload, ItemsSize(items), n, WithBuffer(items, data[..n], rest))
      {
        if n == length {
          FullLengthKept(payload, items, data, rest);
        } else {
          EmptiesKept(payload, items, data, n, rest);
        }
      }
    } else {
      var data, payload := Spoiled(items, length, n, rest);
    }
  }
}
