/** The ring buffer itself, in the masked arithmetic and field updates of varchunk.h. */
module Ring {
  import opened Bytes
  import opened RingLayout

  ghost predicate IsPow2(n: nat) { exists k: nat :: n == Pow2(k) }

  /** The least power of two that is at least `minimum`. */
  method BodySize(minimum: nat) returns (size: nat)
    requires minimum <= 0x8000_0000_0000_0000
    ensures IsPow2(size) && minimum <= size < TWO_64
    ensures forall j: nat :: minimum <= Pow2(j) ==> size <= Pow2(j)
  {
    size := 1;
    ghost var k := 0;
    while size < minimum
      invariant size == Pow2(k) < TWO_64
      invariant k > 0 ==> Pow2(k - 1) < minimum
      decreases TWO_64 - size
    {
      size := AddSize(size, size);  // size <<= 1
      k := k + 1;
    }
    forall j: nat | minimum <= Pow2(j)
      ensures size <= Pow2(j)
    {
      if j < k { Pow2Monotone(j, k - 1); } else { Pow2Monotone(k, j); }
    }
  }

  class Varchunk {
    const size: nat
    const mask: nat
    const buf: array<byte>
    var rsvd: nat
    var gapd: nat
    var head: nat
    var tail: nat
    ghost const k: nat
    ghost var queue: seq<Elem>

    ghost predicate Valid()
      reads this, buf
    {
      && size == Pow2(k) == buf.Length < TWO_32 && mask == size - 1
      && head < size && tail < size
      && Consistent(buf[..], head, tail, queue)
    }

    /** The payloads published and not yet consumed, oldest first. */
    ghost function Contents(): seq<seq<byte>>
      reads this
    {
      Payloads(queue)
    }

    /** The reservation of the last write request still stands. */
    ghost predicate Reserved()
      reads this, buf
    {
      Valid() && Claim(size, head, Total(queue), rsvd, gapd) && rsvd >= 16
    }

    /** The element at tail is a chunk, as after a successful read request. */
    ghost predicate AtChunk()
      reads this, buf
    {
      Valid() && |queue| > 0 && queue[0].Chunk?
    }

    constructor (minimum: nat)
      requires minimum <= 0x8000_0000
      ensures Valid() && fresh(buf)
      ensures Contents() == [] && minimum <= size
      ensures IsPow2(size) && forall j: nat :: minimum <= Pow2(j) ==> size <= Pow2(j)
    {
      var bodySize := BodySize(minimum);
      ghost var e: nat :| bodySize == Pow2(e);
      k := e;
      size := bodySize;
      mask := bodySize - 1;
      buf := new byte[bodySize];
      rsvd, gapd, head, tail, queue := 0, 0, 0, 0, [];
      new;
      assert Pow2(3) == 8 && Pow2(1) == 2;
      BodyBound(minimum, bodySize);
      if k >= 3 { Pow2Multiple(k); } else { Pow2Monotone(k, 2); }
    }

    static lemma BodyBound(minimum: nat, size: nat)
      requires minimum <= 0x8000_0000
      requires forall j: nat :: minimum <= Pow2(j) ==> size <= Pow2(j)
      ensures size <= 0x8000_0000
    {
      assert Pow2(3) == 8 && Pow2(5) == 32 && Pow2(7) == 128;
      Pow2Double(7);
      assert Pow2(15) == 0x8000;
      Pow2Double(15);
      assert Pow2(31) == 0x8000_0000;
    }

    lemma MaskStep(x: nat)
      requires Valid() && x < 2 * size
      ensures And(x, mask) == if x < size then x else x - size
    {
      AndMaskStep(x, k);
    }

    /** Reserve contiguous room for `minimum` bytes; the offset returned is that of the payload. */
    method WriteRequestMax(minimum: nat) returns (at: Option<nat>, maximum: nat)
      requires Valid() && minimum + 7 < TWO_32
      modifies this`rsvd, this`gapd
      ensures Valid() && maximum == rsvd
      ensures match Reserve(size, head, tail, minimum)
              case Refused => at == None && rsvd == 0 && gapd == 0
              case Granted(r, g) => at == Some(Base(head, g) + 8) && rsvd == r && gapd == g
                                    && Reserved() && 16 + Pad8(minimum) <= rsvd
    {
      hide Consistent, And, AddSize, SubSize, Claim, Pow2, Total, Pad8;
      ReserveIsClaimed(minimum);
      PadMask(minimum);
      var padded := 16 + And(minimum + 7, 0xFFFF_FFF8);
      var space;
      if head > tail {
        WrapBack(tail, head, size);
        MaskStep(AddSize(SubSize(tail, head), size));
        space := And(AddSize(SubSize(tail, head), size), mask) - 1;
      } else if head < tail {
        space := tail - head - 1;
      } else {
        space := size - 1;
      }
      var end := head + space;
      if end > size {
        var len1 := size - head;
        if len1 < padded {
          MaskStep(end);
          var len2 := And(end, mask);
          if len2 < padded {
            rsvd, gapd := 0, 0;
            at := None;
          } else {
            rsvd, gapd := len2, len1;
            at := Some(8);
          }
        } else {
          rsvd, gapd := len1, 0;
          at := Some(head + 8);
        }
      } else if space < padded {
        rsvd, gapd := 0, 0;
        at := None;
      } else {
        rsvd, gapd := space, 0;
        at := Some(head + 8);
      }
      maximum := rsvd;
    }

    lemma ReserveIsClaimed(minimum: nat)
      requires Valid()
      ensures match Reserve(size, head, tail, minimum)
              case Refused => true
              case Granted(r, g) => Claim(size, head, Total(queue), r, g) && 16 + Pad8(minimum) <= r
    {
      if Reserve(size, head, tail, minimum).Granted? {
        ReserveClaims(buf[..], head, tail, queue, minimum);
      }
    }

    /** The caller's copy of its payload into the reservation. */
    method Fill(at: nat, data: seq<byte>)
      requires Reserved() && at == Base(head, gapd) + 8 && 8 + |data| <= rsvd
      modifies buf
      ensures Reserved() && at + |data| <= size
      ensures buf[at..at + |data|] == data
      ensures forall i: nat | i < size && !Writable(size, head, rsvd, gapd, i) :: buf[i] == old(buf[i])
    {
      hide Consistent, Pow2, Total;
      ghost var b := buf[..];
      forall i | 0 <= i < |data| {
        buf[at + i] := data[i];
      }
      WritesKeep(b, buf[..], head, tail, queue, rsvd, gapd);
    }

    method StoreWord(p: nat, v: u32)
      requires p + 4 <= buf.Length
      modifies buf
      ensures U32At(buf[..], p) == v
      ensures forall i | 0 <= i < buf.Length && !(p <= i < p + 4) :: buf[i] == old(buf[i])
      ensures forall r: nat | r + 4 <= buf.Length && (r + 4 <= p || p + 4 <= r) ::
                U32At(buf[..], r) == old(U32At(buf[..], r))
    {
      var s := U32Bytes(v);
      buf[p], buf[p + 1], buf[p + 2], buf[p + 3] := s[0], s[1], s[2], s[3];
      assert buf[..][p..p + 4] == s;
      U32RoundTrip(buf[..], p, v);
    }

    /** The header words of the gap, if one is needed, and of the element. */
    method WriteHeaders(written: nat)
      requires Reserved() && 8 + Pad8(written) <= rsvd
      modifies buf
      ensures Reserved()
      ensures HeadersInPlace(buf[..], head, gapd, written)
      ensures forall i: nat | i < size && !Writable(size, head, rsvd, gapd, i) :: buf[i] == old(buf[i])
      ensures Base(head, gapd) + 8 + written <= size
      ensures var at := Base(head, gapd) + 8; buf[at..at + written] == old(buf[at..at + written])
    {
      hide U32At, Pow2, Total, Tiles;
      ClaimRoom(size, head, Total(queue), rsvd, gapd);
      ghost var b := buf[..];
      if gapd > 0 {
        StoreWord(head, gapd - 8);
        StoreWord(head + 4, 1);
        StoreWord(0, written);
        StoreWord(4, 0);
      } else {
        StoreWord(head, written);
        StoreWord(head + 4, 0);
      }
      WritesKeep(b, buf[..], head, tail, queue, rsvd, gapd);
    }

    /** Write the header words and publish `written` bytes of the reservation. */
    method WriteAdvance(written: nat)
      requires Reserved() && 8 + Pad8(written) <= rsvd
      modifies this`head, this`queue, buf
      ensures Valid() && head != tail
      ensures Base(old(head), gapd) + 8 + written <= size
      ensures Contents() == old(Contents())
                            + [old(buf[Base(head, gapd) + 8..Base(head, gapd) + 8 + written])]
      ensures HeadersInPlace(buf[..], old(head), gapd, written)
      ensures forall i: nat | i < size && !Writable(size, old(head), rsvd, gapd, i) :: buf[i] == old(buf[i])
      ensures head == Step(size, old(head), gapd + 8 + Pad8(written))
    {
      hide Consistent, Claim, HeadersInPlace, And, Pow2, Pad8, Total, Added, Payloads;
      WriteHeaders(written);
      PublishRoom(written);
      ghost var add := Added(buf[..], head, gapd, written);
      PublishKeeps(buf[..], head, tail, queue, rsvd, gapd, written);
      TotalAppend(queue, add);
      PadMask(written);
      MaskStep(head + (gapd + 8 + Pad8(written)));
      head := And(head + (gapd + 8 + And(written + 7, 0xFFFF_FFF8)), mask);
      queue := queue + add;
    }

    lemma PublishRoom(written: nat)
      requires Reserved() && 8 + Pad8(written) <= rsvd
      ensures Base(head, gapd) + 8 + written <= size && gapd + 8 + Pad8(written) < size < TWO_32
    {
      hide Tiles, Total;
      ClaimRoom(size, head, Total(queue), rsvd, gapd);
    }

    lemma Indices()
      requires Valid()
      ensures head < size && tail < size
    {
    }

    lemma NothingPending()
      requires Valid()
      ensures Contents() == [] <==> |queue| == 0
    {
      if |queue| > 0 { PendingPayload(buf[..], tail, queue); }
    }

    /** The oldest chunk, if any; a gap in front of it is skipped for good. */
    method ReadRequest() returns (at: Option<nat>, toread: nat)
      requires Valid()
      modifies this`tail, this`queue
      ensures Valid() && Contents() == old(Contents())
      ensures at == None <==> Contents() == []
      ensures at.Some? ==>
                && AtChunk() && at.value + toread <= size == buf.Length
                && at.value == tail + 8
                && toread == |Contents()[0]| && buf[at.value..at.value + toread] == Contents()[0]
      ensures at.Some? ==>
                && old(tail) + 8 <= size
                && tail == (if old(U32At(buf[..], tail + 4)) != 0 then 0 else old(tail))
                && toread == U32At(buf[..], tail)
    {
      hide Consistent, And, AddSize, SubSize, Pow2, U32At, Total, Payloads;
      var space;
      LoadedSound(buf[..], head, tail, queue);
      NothingPending();
      if head > tail {
        space := head - tail;
      } else {
        WrapBack(head, tail, size);
        MaskStep(AddSize(SubSize(head, tail), size));
        space := And(AddSize(SubSize(head, tail), size), mask);
      }
      if space > 0 {
        FirstUnread(buf[..], head, tail, queue);
        var end := tail + space;
        if end > size && U32At(buf[..], tail + 4) != 0 {
          GapSkipped(buf[..], head, tail, queue);
          MaskStep(tail + (size - tail));
          tail := And(tail + (size - tail), mask);
          queue := queue[1..];
          FirstUnread(buf[..], head, tail, queue);
        }
        toread := U32At(buf[..], tail);
        at := Some(tail + 8);
        DropPayload(queue);
        assert buf[tail + 8..tail + 8 + toread] == queue[0].payload;
      } else {
        toread := 0;
        at := None;
      }
    }

    /** Give the chunk at tail back to the producer. */
    method ReadAdvance()
      requires AtChunk()
      modifies this`tail, this`queue
      ensures Valid() && Contents() == old(Contents())[1..]
      ensures |old(Contents())| > 0
      ensures old(tail) + 8 <= size
      ensures tail == Step(size, old(tail), 8 + Pad8(U32At(buf[..], old(tail))))
    {
      hide Consistent, U32At, And, Pow2, Total, Payloads;
      FirstUnread(buf[..], head, tail, queue);
      DropFirst(buf[..], head, tail, queue);
      var n := U32At(buf[..], tail);
      PadMask(n);
      MaskStep(tail + (8 + Pad8(n)));
      tail := And(tail + (8 + And(n + 7, 0xFFFF_FFF8)), mask);
      queue := queue[1..];
    }
  }
}
