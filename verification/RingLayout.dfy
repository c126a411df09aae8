/** How published chunks lie in the ring's body, and what a reservation grants. */
module RingLayout {
  import opened Bytes

  /** An element of the published region: a chunk with its payload, or the gap up to the end of the body. */
  datatype Elem = Gap(len: nat) | Chunk(payload: seq<byte>)

  function Len(e: Elem): nat {
    match e
    case Gap(n) => n
    case Chunk(p) => 8 + Pad8(|p|)
  }

  function Total(q: seq<Elem>): nat {
    if |q| == 0 then 0 else Len(q[0]) + Total(q[1..])
  }

  function Payloads(q: seq<Elem>): seq<seq<byte>> {
    if |q| == 0 then [] else (if q[0].Chunk? then [q[0].payload] else []) + Payloads(q[1..])
  }

  /** The offset `n` bytes after `off`, around the end of the body. */
  function Step(size: nat, off: nat, n: nat): nat {
    if off + n < size then off + n else off + n - size
  }

  /** How many bytes lie between two offsets, going forward. */
  function Dist(size: nat, from: nat, to: nat): int {
    if from <= to then to - from else to - from + size
  }

  /** The element's two header words and its payload are at `off`, contiguously. */
  ghost predicate ElemAt(b: seq<byte>, off: nat, e: Elem) {
    && off + 8 <= off + Len(e) <= |b|
    && match e
       case Gap(n) =>
         off + n == |b| && U32At(b, off) == n - 8 && U32At(b, off + 4) == 1
       case Chunk(p) =>
         U32At(b, off) == |p| && U32At(b, off + 4) == 0 && Holds(b, off + 8, p)
  }

  /** From `off` on the body is tiled by `q`; after a gap there is always a chunk. */
  ghost predicate Tiles(b: seq<byte>, off: nat, q: seq<Elem>)
    decreases |q|
  {
    |q| == 0 ||
    (&& off % 8 == 0
     && 8 <= Len(q[0]) <= |b| - off
     && ElemAt(b, off, q[0])
     && (q[0].Gap? ==> |q| > 1 && q[1].Chunk?)
     && Tiles(b, Step(|b|, off, Len(q[0])), q[1..]))
  }

  /** The ring's invariant: exactly the bytes from tail to head are tiled, and the ring is never full. */
  ghost predicate Consistent(b: seq<byte>, head: nat, tail: nat, q: seq<Elem>) {
    && head < |b| && tail < |b| && head % 8 == 0 && tail % 8 == 0
    && (|b| >= 8 ==> |b| % 8 == 0)
    && Total(q) < |b|
    && head == Step(|b|, tail, Total(q))
    && Tiles(b, tail, q)
  }

  /** Offset `i` holds a published byte that was not read yet. */
  ghost predicate Published(size: nat, tail: nat, used: int, i: nat) {
    i < size && Dist(size, tail, i) < used
  }

  lemma {:induction false} TotalAppend(q: seq<Elem>, r: seq<Elem>)
    ensures Total(q + r) == Total(q) + Total(r)
    ensures Payloads(q + r) == Payloads(q) + Payloads(r)
  {
    hide Len;
    if |q| == 0 {
      assert q + r == r;
    } else {
      var first := if q[0].Chunk? then [q[0].payload] else [];
      TotalAppend(q[1..], r);
      HeadTail(q, r);
      assert first + (Payloads(q[1..]) + Payloads(r)) == Payloads(q) + Payloads(r);
    }
  }

  /** Tiling only depends on the tiled bytes. */
  lemma {:induction false} TilesFrame(b: seq<byte>, c: seq<byte>, off: nat, q: seq<Elem>)
    requires |b| == |c| && off < |b| && Total(q) <= |b|
    requires Tiles(b, off, q)
    requires forall i | 0 <= i < |b| && Published(|b|, off, Total(q), i) :: b[i] == c[i]
    ensures Tiles(c, off, q)
    decreases |q|
  {
    if |q| > 0 {
      var n := Len(q[0]);
      ElemFrame(b, c, off, q[0]);
      TilesFrame(b, c, Step(|b|, off, n), q[1..]);
    }
  }

  lemma ElemFrame(b: seq<byte>, c: seq<byte>, off: nat, e: Elem)
    requires |b| == |c| && ElemAt(b, off, e)
    requires forall i | off <= i < off + Len(e) :: b[i] == c[i]
    ensures ElemAt(c, off, e)
  {
  }

  lemma TilesCons(b: seq<byte>, off: nat, e: Elem, q: seq<Elem>)
    requires off < |b| && off % 8 == 0 && ElemAt(b, off, e)
    requires e.Gap? ==> |q| > 0 && q[0].Chunk?
    requires Tiles(b, Step(|b|, off, Len(e)), q)
    ensures Tiles(b, off, [e] + q)
  {
    var s := [e] + q;
    assert s[1..] == q;
  }

  lemma {:induction false} TilesAppend(b: seq<byte>, off: nat, q: seq<Elem>, r: seq<Elem>)
    requires off < |b| && Total(q) < |b|
    requires Tiles(b, off, q) && Tiles(b, Step(|b|, off, Total(q)), r)
    ensures Tiles(b, off, q + r)
    decreases |q|
  {
    hide ElemAt, Len;
    if |q| == 0 {
      assert q + r == r;
    } else {
      var n := Len(q[0]);
      TilesAppend(b, Step(|b|, off, n), q[1..], r);
      HeadTail(q, r);
      TilesCons(b, off, q[0], q[1..] + r);
    }
  }

  /** The header and payload of the first element, as a reader at `off` finds them. */
  lemma HeadOf(b: seq<byte>, off: nat, q: seq<Elem>)
    requires |q| > 0 && Tiles(b, off, q)
    ensures off + 8 <= off + Len(q[0]) <= |b|
    ensures U32At(b, off + 4) != 0 <==> q[0].Gap?
    ensures q[0].Gap? ==> off + Len(q[0]) == |b| == off + 8 + U32At(b, off) && |q| > 1 && q[1].Chunk?
    ensures q[0].Chunk? ==> U32At(b, off) == |q[0].payload| && Holds(b, off + 8, q[0].payload)
  {
  }

  lemma FirstUnread(b: seq<byte>, head: nat, tail: nat, q: seq<Elem>)
    requires |q| > 0 && Consistent(b, head, tail, q)
    ensures tail + 8 <= tail + Len(q[0]) <= |b| && Len(q[0]) % 8 == 0
    ensures U32At(b, tail + 4) != 0 <==> q[0].Gap?
    ensures q[0].Gap? ==> tail + Len(q[0]) == |b| == tail + 8 + U32At(b, tail) && |q| > 1 && q[1].Chunk?
    ensures q[0].Chunk? ==> U32At(b, tail) == |q[0].payload| && Holds(b, tail + 8, q[0].payload)
  {
    hide Tiles, U32At, Holds;
    HeadOf(b, tail, q);
  }

  lemma DropPayload(q: seq<Elem>)
    requires |q| > 0
    ensures Payloads(q) == (if q[0].Chunk? then [q[0].payload] else []) + Payloads(q[1..])
  {
  }

  lemma DropIndices(b: seq<byte>, head: nat, tail: nat, q: seq<Elem>)
    requires |q| > 0 && Consistent(b, head, tail, q)
    requires 8 <= Len(q[0]) <= |b| - tail && Len(q[0]) % 8 == 0
    ensures var t := Step(|b|, tail, Len(q[0]));
            && t < |b| && t % 8 == 0
            && Total(q[1..]) < Total(q) < |b|
            && head == Step(|b|, t, Total(q[1..]))
  {
    hide Tiles, Len;
  }

  /** Dropping the first element keeps the invariant. */
  lemma DropFirst(b: seq<byte>, head: nat, tail: nat, q: seq<Elem>)
    requires |q| > 0 && Consistent(b, head, tail, q)
    ensures Consistent(b, head, Step(|b|, tail, Len(q[0])), q[1..])
    ensures Total(q[1..]) < Total(q)
    ensures Payloads(q) == (if q[0].Chunk? then [q[0].payload] else []) + Payloads(q[1..])
  {
    hide ElemAt, Len, Payloads, U32At, Holds;
    FirstUnread(b, head, tail, q);
    DropPayload(q);
    DropIndices(b, head, tail, q);
  }

  /** A gap at the tail always comes with a chunk behind it, so the readable region wraps around. */
  lemma LoadedSound(b: seq<byte>, head: nat, tail: nat, q: seq<Elem>)
    requires Consistent(b, head, tail, q)
    ensures Dist(|b|, tail, head) == Total(q)
    ensures |q| > 0 <==> Total(q) > 0
    ensures |q| > 0 && q[0].Gap? ==> tail + Total(q) > |b|
  {
    if |q| > 0 && q[0].Gap? {
      HeadOf(b, tail, q);
      assert Total(q[1..]) >= Len(q[1]);
    }
  }

  /** A gap never stands alone: whatever is published holds a payload. */
  lemma PendingPayload(b: seq<byte>, tail: nat, q: seq<Elem>)
    requires |q| > 0 && Tiles(b, tail, q)
    ensures Total(q) > 0 && |Payloads(q)| > 0
  {
    hide U32At, Holds;
    if q[0].Gap? {
      assert q[1..][0] == q[1];
      assert |Payloads(q[1..])| > 0;
    }
  }

  /** Skipping a gap leaves a chunk at the start of the body and loses no payload. */
  lemma GapSkipped(b: seq<byte>, head: nat, tail: nat, q: seq<Elem>)
    requires |q| > 0 && q[0].Gap? && Consistent(b, head, tail, q)
    ensures Consistent(b, head, 0, q[1..]) && |q| > 1 && q[1..][0].Chunk?
    ensures Payloads(q[1..]) == Payloads(q)
  {
    hide Tiles, Payloads, U32At;
    FirstUnread(b, head, tail, q);
    DropFirst(b, head, tail, q);
    assert [] + Payloads(q[1..]) == Payloads(q[1..]);
  }

  // ---- reservations ----

  /** What a write request leaves in `rsvd` and `gapd`, or that it was refused. */
  datatype Grant = Refused | Granted(rsvd: nat, gapd: nat)

  /** The reservation for `minimum` bytes, one byte of the ring always staying free. */
  function Reserve(size: nat, head: nat, tail: nat, minimum: nat): Grant
    requires head < size && tail < size
  {
    var need := 16 + Pad8(minimum);
    var free := size - 1 - Dist(size, tail, head);
    if head + free <= size then
      if free >= need then Granted(free, 0) else Refused
    else if size - head >= need then
      Granted(size - head, 0)
    else if head + free - size >= need then
      Granted(head + free - size, size - head)
    else
      Refused
  }

  /** What stays true of a reservation however far the consumer has advanced since. */
  ghost predicate Claim(size: nat, head: nat, used: nat, rsvd: nat, gapd: nat) {
    && used + gapd + rsvd < size
    && if gapd > 0 then head + gapd == size else head + rsvd <= size
  }

  /** A gap leaves room for its own header and keeps the element in front of it. */
  lemma ClaimRoom(size: nat, head: nat, used: nat, rsvd: nat, gapd: nat)
    requires head < size && head % 8 == 0 && (size >= 8 ==> size % 8 == 0)
    requires Claim(size, head, used, rsvd, gapd) && rsvd >= 8
    ensures Base(head, gapd) + rsvd <= size
    ensures gapd > 0 ==> gapd >= 8 && head + gapd == size && rsvd <= head
  {
  }

  /** Where the reserved element starts. */
  function Base(head: nat, gapd: nat): nat { if gapd > 0 then 0 else head }

  lemma ReserveClaims(b: seq<byte>, head: nat, tail: nat, q: seq<Elem>, minimum: nat)
    requires Consistent(b, head, tail, q)
    requires Reserve(|b|, head, tail, minimum).Granted?
    ensures var g := Reserve(|b|, head, tail, minimum);
            Claim(|b|, head, Total(q), g.rsvd, g.gapd) && g.rsvd >= 16 + Pad8(minimum)
  {
  }

  /** Byte `i` may be handed out: it is not published, and handing it out keeps one byte free. */
  ghost predicate Usable(size: nat, head: nat, tail: nat, i: nat) {
    i < size && Dist(size, head, i) < size - 1 - Dist(size, tail, head)
  }

  /** `n` usable bytes lie contiguously at `at`, which is the head or the start of the body. */
  ghost predicate Candidate(size: nat, head: nat, tail: nat, at: nat, n: nat) {
    && (at == head || at == 0)
    && at + n <= size
    && forall i | at <= i < at + n :: Usable(size, head, tail, i)
  }

  /** A request is refused exactly when neither candidate place can hold it. */
  lemma RefusedOnlyWhenNothingFits(size: nat, head: nat, tail: nat, minimum: nat)
    requires head < size && tail < size && head % 8 == 0 && tail % 8 == 0
    requires size % 8 == 0 || size < 8
    ensures var n := 16 + Pad8(minimum);
            Reserve(size, head, tail, minimum).Refused?
            <==> !Candidate(size, head, tail, head, n) && !Candidate(size, head, tail, 0, n)
  {
    var n := 16 + Pad8(minimum);
    var free := size - 1 - Dist(size, tail, head);
    if Candidate(size, head, tail, head, n) {
      assert Usable(size, head, tail, head + n - 1);
    }
    if Candidate(size, head, tail, 0, n) {
      assert Usable(size, head, tail, 0) && Usable(size, head, tail, n - 1);
      assert 0 < tail <= n ==> Usable(size, head, tail, tail - 1);
    }
  }

  /** On an empty ring, wherever its indices stand, half the body can always be reserved. */
  lemma EmptyRingGrantsHalf(size: nat, at: nat, minimum: nat)
    requires at < size && at % 8 == 0
    requires 2 * (16 + Pad8(minimum)) <= size
    ensures Reserve(size, at, at, minimum).Granted?
  {
  }

  // ---- bursts: several chunks written before the consumer reads ----

  /** The head after a chunk of `n` bytes was reserved and published. */
  function NextHead(size: nat, head: nat, tail: nat, n: nat): (r: nat)
    requires head < size && tail < size && Reserve(size, head, tail, n).Granted?
    ensures r < size
  {
    Step(size, head, Reserve(size, head, tail, n).gapd + 8 + Pad8(n))
  }

  function Sizes(ps: seq<seq<byte>>): (ns: seq<nat>)
    ensures |ns| == |ps| && forall i | 0 <= i < |ps| :: ns[i] == |ps[i]|
  {
    seq(|ps|, i requires 0 <= i < |ps| => |ps[i]|)
  }

  /** How many chunks of these sizes the ring takes, one after the other, before it refuses one. */
  function Taken(size: nat, head: nat, tail: nat, ns: seq<nat>): (k: nat)
    requires head < size && tail < size
    ensures k <= |ns|
    decreases |ns|
  {
    if |ns| == 0 || Reserve(size, head, tail, ns[0]).Refused? then 0
    else 1 + Taken(size, NextHead(size, head, tail, ns[0]), tail, ns[1..])
  }

  /** Where the head stands after those chunks. */
  function HeadAfter(size: nat, head: nat, tail: nat, ns: seq<nat>): (r: nat)
    requires head < size && tail < size
    ensures r < size
    decreases |ns|
  {
    if |ns| == 0 || Reserve(size, head, tail, ns[0]).Refused? then head
    else HeadAfter(size, NextHead(size, head, tail, ns[0]), tail, ns[1..])
  }

  /** Two bursts one after the other; a refusal ends the first for good. */
  lemma {:induction false} TakenAppend(size: nat, head: nat, tail: nat, ns: seq<nat>, ms: seq<nat>)
    requires head < size && tail < size
    ensures var (k, h) := (Taken(size, head, tail, ns), HeadAfter(size, head, tail, ns));
            && (k < |ns| ==> Taken(size, head, tail, ns + ms) == k && HeadAfter(size, head, tail, ns + ms) == h)
            && (k == |ns| ==>
                  && Taken(size, head, tail, ns + ms) == k + Taken(size, h, tail, ms)
                  && HeadAfter(size, head, tail, ns + ms) == HeadAfter(size, h, tail, ms))
    decreases |ns|
  {
    hide Reserve, NextHead;
    if |ns| == 0 {
      assert ns + ms == ms;
    } else {
      assert (ns + ms)[0] == ns[0] && (ns + ms)[1..] == ns[1..] + ms;
      if Reserve(size, head, tail, ns[0]).Granted? {
        TakenAppend(size, NextHead(size, head, tail, ns[0]), tail, ns[1..], ms);
      }
    }
  }

  /** What chunks of these sizes occupy, their headers included. */
  function Used(ns: seq<nat>): nat {
    if |ns| == 0 then 0 else 8 + Pad8(ns[0]) + Used(ns[1..])
  }

  lemma UseStep(size: nat, head: nat, tail: nat, n: nat)
    requires head < size && tail < size && Reserve(size, head, tail, n).Granted?
    ensures Dist(size, tail, head) + 8 + Pad8(n) <= Dist(size, tail, NextHead(size, head, tail, n))
  {
    hide Pad8;
  }

  /** Chunks that were all granted fit into the ring together. */
  lemma {:induction false} TakenFits(size: nat, head: nat, tail: nat, ns: seq<nat>)
    requires head < size && tail < size && Taken(size, head, tail, ns) == |ns|
    ensures Dist(size, tail, head) + Used(ns) < size
    decreases |ns|
  {
    hide Reserve, NextHead;
    if |ns| > 0 {
      UseStep(size, head, tail, ns[0]);
      TakenFits(size, NextHead(size, head, tail, ns[0]), tail, ns[1..]);
    }
  }

  /** What the requests of a burst ask for. */
  function Asked(ns: seq<nat>): nat {
    if |ns| == 0 then 0 else 16 + Pad8(ns[0]) + Asked(ns[1..])
  }

  /** The ring holds a burst that asked for `asked` bytes: at most that while its chunks lie in one piece, and
      at most double once a gap was left and the head wrapped around. */
  ghost predicate InBurst(size: nat, head: nat, tail: nat, asked: nat) {
    && head < size && tail < size
    && Dist(size, tail, head) <= if tail <= head then asked else 2 * asked
  }

  lemma BurstStep(size: nat, head: nat, tail: nat, asked: nat, n: nat)
    requires InBurst(size, head, tail, asked)
    requires 2 * (asked + 16 + Pad8(n)) <= size
    ensures Reserve(size, head, tail, n).Granted?
    ensures InBurst(size, NextHead(size, head, tail, n), tail, asked + 16 + Pad8(n))
  {
    hide Pad8;
  }

  lemma BurstIndices(size: nat, head: nat, tail: nat, asked: nat)
    requires InBurst(size, head, tail, asked)
    ensures head < size && tail < size
  {
  }

  lemma {:induction false} BurstTaken(size: nat, head: nat, tail: nat, asked: nat, ns: seq<nat>)
    requires InBurst(size, head, tail, asked)
    requires 2 * (asked + Asked(ns)) <= size
    ensures Taken(size, head, tail, ns) == |ns|
    decreases |ns|
  {
    hide Reserve, InBurst, NextHead;
    assert head < size && tail < size by { BurstIndices(size, head, tail, asked); }
    if |ns| > 0 {
      BurstStep(size, head, tail, asked, ns[0]);
      BurstTaken(size, NextHead(size, head, tail, ns[0]), tail, asked + 16 + Pad8(ns[0]), ns[1..]);
    }
  }

  /** On an empty ring, wherever its indices stand, every burst is taken whole whose requests ask for up to half
      the body together. */
  lemma EmptyRingTakesBurst(size: nat, at: nat, ns: seq<nat>)
    requires at < size && 2 * Asked(ns) <= size
    ensures Taken(size, at, at, ns) == |ns|
  {
    BurstTaken(size, at, at, 0, ns);
  }

  // ---- publishing ----

  /** The header words a publication relies on are in place. */
  predicate HeadersInPlace(b: seq<byte>, head: nat, gapd: nat, written: nat) {
    && Base(head, gapd) + 8 <= |b|
    && U32At(b, Base(head, gapd)) == written && U32At(b, Base(head, gapd) + 4) == 0
    && (gapd > 0 ==> gapd >= 8 && head + 8 <= |b| && U32At(b, head) == gapd - 8 && U32At(b, head + 4) == 1)
  }

  /** The elements one publication adds. */
  function Added(b: seq<byte>, head: nat, gapd: nat, written: nat): (r: seq<Elem>)
    requires Base(head, gapd) + 8 + written <= |b|
    ensures Total(r) == gapd + 8 + Pad8(written)
    ensures Payloads(r) == [b[Base(head, gapd) + 8..Base(head, gapd) + 8 + written]]
  {
    var c := Chunk(b[Base(head, gapd) + 8..Base(head, gapd) + 8 + written]);
    assert Total([c]) == Len(c) && Payloads([c]) == [c.payload];
    if gapd > 0 then
      assert [Gap(gapd), c][1..] == [c];
      [Gap(gapd), c]
    else
      [c]
  }

  lemma ChunkTiles(b: seq<byte>, off: nat, written: nat)
    requires off % 8 == 0 && off + 8 + Pad8(written) <= |b|
    requires U32At(b, off) == written && U32At(b, off + 4) == 0
    ensures Tiles(b, off, [Chunk(b[off + 8..off + 8 + written])])
  {
    hide U32At;
    var c := Chunk(b[off + 8..off + 8 + written]);
    assert Holds(b, off + 8, c.payload);
    assert [c][1..] == [];
  }

  lemma AddedTiles(b: seq<byte>, head: nat, gapd: nat, written: nat)
    requires head < |b| && head % 8 == 0
    requires gapd > 0 ==> head + gapd == |b|
    requires Base(head, gapd) + 8 + Pad8(written) <= |b|
    requires HeadersInPlace(b, head, gapd, written)
    ensures Tiles(b, head, Added(b, head, gapd, written))
  {
    hide U32At, Tiles, Pad8;
    ChunkTiles(b, Base(head, gapd), written);
    if gapd > 0 {
      var c := [Chunk(b[8..8 + written])];
      TilesCons(b, head, Gap(gapd), c);
      assert Added(b, head, gapd, written) == [Gap(gapd)] + c;
    }
  }

  lemma PublishedTiles(b: seq<byte>, head: nat, tail: nat, q: seq<Elem>, rsvd: nat, gapd: nat, written: nat)
    requires Consistent(b, head, tail, q)
    requires Claim(|b|, head, Total(q), rsvd, gapd)
    requires 8 + Pad8(written) <= rsvd
    requires HeadersInPlace(b, head, gapd, written)
    ensures Tiles(b, tail, q + Added(b, head, gapd, written))
  {
    hide ElemAt, HeadersInPlace, Added;
    AddedTiles(b, head, gapd, written);
    TilesAppend(b, tail, q, Added(b, head, gapd, written));
  }

  lemma PublishIndices(size: nat, head: nat, tail: nat, used: nat, rsvd: nat, gapd: nat, n: nat)
    requires head < size && tail < size && (size >= 8 ==> size % 8 == 0) && head % 8 == 0 && n % 8 == 0
    requires head == Step(size, tail, used) && Claim(size, head, used, rsvd, gapd)
    requires 0 < n <= rsvd
    ensures var head' := Step(size, head, gapd + n);
            && head' < size && head' % 8 == 0 && head' != tail
            && used + gapd + n < size && head' == Step(size, tail, used + gapd + n)
            && Base(head, gapd) + n <= size
  {
  }

  /** Publishing within the reservation appends exactly the payload and never fills the ring. */
  lemma PublishKeeps(b: seq<byte>, head: nat, tail: nat, q: seq<Elem>, rsvd: nat, gapd: nat, written: nat)
    requires Consistent(b, head, tail, q)
    requires Claim(|b|, head, Total(q), rsvd, gapd)
    requires 8 + Pad8(written) <= rsvd
    requires HeadersInPlace(b, head, gapd, written)
    ensures Base(head, gapd) + 8 + written <= |b|
    ensures var head' := Step(|b|, head, gapd + 8 + Pad8(written));
            && Consistent(b, head', tail, q + Added(b, head, gapd, written))
            && head' != tail
  {
    hide Tiles, HeadersInPlace, Added, Claim, Pad8, Step, Base;
    PublishIndices(|b|, head, tail, Total(q), rsvd, gapd, 8 + Pad8(written));
    PublishedTiles(b, head, tail, q, rsvd, gapd, written);
    TotalAppend(q, Added(b, head, gapd, written));
  }

  /** A byte the producer may write while it holds a reservation: the gap's header or the reserved stretch. */
  predicate Writable(size: nat, head: nat, rsvd: nat, gapd: nat, i: nat) {
    || Base(head, gapd) <= i < Base(head, gapd) + rsvd
    || (gapd > 0 && head <= i < size)
  }

  /** No writable byte is published and unread, whatever the consumer did since the tail was loaded. */
  lemma WritableIsUnpublished(size: nat, head: nat, tail: nat, used: nat, rsvd: nat, gapd: nat, i: nat)
    requires tail < size && used < size && head == Step(size, tail, used)
    requires Claim(size, head, used, rsvd, gapd)
    requires Writable(size, head, rsvd, gapd, i)
    ensures i < size && !Published(size, tail, used, i)
  {
  }

  /** Writes to writable bytes keep the published tiling. */
  lemma WritesKeep(b: seq<byte>, c: seq<byte>, head: nat, tail: nat, q: seq<Elem>, rsvd: nat, gapd: nat)
    requires Consistent(b, head, tail, q) && |b| == |c|
    requires Claim(|b|, head, Total(q), rsvd, gapd)
    requires forall i | 0 <= i < |b| && !Writable(|b|, head, rsvd, gapd, i) :: b[i] == c[i]
    ensures Consistent(c, head, tail, q)
  {
    forall i | 0 <= i < |b| && Published(|b|, tail, Total(q), i)
      ensures b[i] == c[i]
    {
      if Writable(|b|, head, rsvd, gapd, i) {
        WritableIsUnpublished(|b|, head, tail, Total(q), rsvd, gapd, i);
      }
    }
    TilesFrame(b, c, tail, q);
  }

  /** An element placed at the reservation's base is safe: it stays in the body and clear of the gap, covers
      no published byte and leaves the head distinct from the tail. */
  ghost predicate SafeToPublish(size: nat, head: nat, tail: nat, gapd: nat, written: nat) {
    var n := 8 + Pad8(written);
    && Base(head, gapd) + n <= (if gapd > 0 then head else size)
    && (forall i | Base(head, gapd) <= i < Base(head, gapd) + n ::
          !Published(size, tail, Dist(size, tail, head), i))
    && Step(size, head, gapd + n) != tail
  }

  /** Exactly the payload sizes with 8 + Pad8(written) <= rsvd may be published. */
  lemma PublishBoundExact(size: nat, head: nat, tail: nat, minimum: nat, written: nat)
    requires size % 8 == 0 && head < size && tail < size && head % 8 == 0 && tail % 8 == 0
    requires Reserve(size, head, tail, minimum).Granted?
    ensures var g := Reserve(size, head, tail, minimum);
            SafeToPublish(size, head, tail, g.gapd, written) <==> 8 + Pad8(written) <= g.rsvd
  {
    var g := Reserve(size, head, tail, minimum);
    var used := Dist(size, tail, head);
    var n := 8 + Pad8(written);
    if n <= g.rsvd {
      forall i | Base(head, g.gapd) <= i < Base(head, g.gapd) + n
        ensures !Published(size, tail, used, i)
      {
        WritableIsUnpublished(size, head, tail, used, g.rsvd, g.gapd, i);
      }
    } else {
      assert used > 0 ==> Published(size, tail, used, tail);
    }
  }

  /** The asserted bound written <= rsvd is weaker. On a ring of 8192 bytes a request for 1024 is granted all but
      one of them, and the bound then admits a publication after which the full ring looks empty. */
  lemma AssertedBoundTooWeak()
    ensures Reserve(8192, 0, 0, 1024) == Granted(8191, 0)
    ensures 8184 <= 8191 && !SafeToPublish(8192, 0, 0, 0, 8184)
    ensures Step(8192, 0, 0 + 8 + Pad8(8184)) == 0
  {
  }
}
