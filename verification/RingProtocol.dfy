/** The lock-free protocol: every interleaving of one producer and one consumer, each acting on index
    snapshots that the other side may have outdated. */
module RingProtocol {
  import opened Bytes
  import opened RingLayout

  /** The producer holds no reservation, or the `rsvd` and `gapd` its last request left. */
  datatype Producer = Idle | Reserved(rsvd: nat, gapd: nat)

  /** Where the consumer stands inside `varchunk_read_request` and the reading of its chunk. */
  datatype Consumer =
    | Waiting
    | Loaded(space: nat)                              // head was loaded `space` bytes ahead of tail
    | AtGap                                           // the element at tail is a gap, tail not stored yet
    | PastGap                                         // tail was stored as 0, the header there not read yet
    | Reading(at: nat, len: nat, got: seq<byte>)      // copying the chunk's bytes one by one

  datatype World = World(
    buf: seq<byte>, head: nat, tail: nat,
    prod: Producer, cons: Consumer,
    committed: seq<seq<byte>>,                        // payloads as they stood when published
    consumed: seq<seq<byte>>)                         // payloads as the consumer read them

  predicate Init(w: World) {
    && |w.buf| > 0 && (|w.buf| >= 8 ==> |w.buf| % 8 == 0)
    && w == World(w.buf, 0, 0, Idle, Waiting, [], [])
  }

  // ---- producer steps ----

  /** Load both indices and reserve; an earlier reservation may be abandoned. */
  predicate Request(w: World, w': World, minimum: nat) {
    && w.head < |w.buf| && w.tail < |w.buf|
    && match Reserve(|w.buf|, w.head, w.tail, minimum)
       case Refused => w' == w.(prod := Idle)
       case Granted(r, g) => w' == w.(prod := Reserved(r, g))
  }

  /** Store one byte of payload or header anywhere in the reservation. */
  predicate Store(w: World, w': World, i: nat, v: byte) {
    && w.prod.Reserved? && i < |w.buf|
    && Writable(|w.buf|, w.head, w.prod.rsvd, w.prod.gapd, i)
    && w' == w.(buf := w.buf[i := v])
  }

  /** Store the new head, once the header words are written. */
  predicate Publish(w: World, w': World, written: nat) {
    && w.prod.Reserved?
    && var Reserved(r, g) := w.prod;
    && 8 + Pad8(written) <= r
    && HeadersInPlace(w.buf, w.head, g, written)
    && Base(w.head, g) + 8 + written <= |w.buf|
    && w' == w.(head := Step(|w.buf|, w.head, g + 8 + Pad8(written)),
                prod := Idle,
                committed := w.committed + [w.buf[Base(w.head, g) + 8..Base(w.head, g) + 8 + written]])
  }

  // ---- consumer steps ----

  predicate LoadHead(w: World, w': World) {
    && w.cons.Waiting?
    && var space := Dist(|w.buf|, w.tail, w.head);
    && space >= 0
    && w' == if space == 0 then w else w.(cons := Loaded(space))
  }

  /** Look at the element at tail; only a region that wraps around is tested for a gap. */
  predicate Inspect(w: World, w': World) {
    && w.cons.Loaded? && w.tail + 8 <= |w.buf|
    && w' == if w.tail + w.cons.space > |w.buf| && U32At(w.buf, w.tail + 4) != 0
             then w.(cons := AtGap)
             else w.(cons := Reading(w.tail + 8, U32At(w.buf, w.tail), []))
  }

  predicate SkipGap(w: World, w': World) {
    && w.cons.AtGap?
    && w' == w.(tail := 0, cons := PastGap)
  }

  predicate InspectStart(w: World, w': World) {
    && w.cons.PastGap? && 8 <= |w.buf|
    && w' == w.(cons := Reading(8, U32At(w.buf, 0), []))
  }

  predicate ReadByte(w: World, w': World) {
    && w.cons.Reading? && |w.cons.got| < w.cons.len
    && w.cons.at + |w.cons.got| < |w.buf|
    && w' == w.(cons := w.cons.(got := w.cons.got + [w.buf[w.cons.at + |w.cons.got|]]))
  }

  /** Re-read the size at tail and store the new tail. */
  predicate Advance(w: World, w': World) {
    && w.cons.Reading? && |w.cons.got| == w.cons.len
    && w.tail + 8 <= |w.buf|
    && w' == w.(tail := Step(|w.buf|, w.tail, 8 + Pad8(U32At(w.buf, w.tail))),
                cons := Waiting,
                consumed := w.consumed + [w.cons.got])
  }

  /** Leave a chunk unread; the next request finds it again. */
  predicate Abandon(w: World, w': World) {
    && w.cons.Reading?
    && w' == w.(cons := Waiting)
  }

  ghost predicate ProducerStep(w: World, w': World) {
    || (exists minimum :: Request(w, w', minimum))
    || (exists i, v :: Store(w, w', i, v))
    || (exists written :: Publish(w, w', written))
  }

  ghost predicate ConsumerStep(w: World, w': World) {
    || LoadHead(w, w') || Inspect(w, w') || SkipGap(w, w')
    || InspectStart(w, w') || ReadByte(w, w') || Abandon(w, w') || Advance(w, w')
  }

  ghost predicate Next(w: World, w': World) {
    ProducerStep(w, w') || ConsumerStep(w, w')
  }

  // ---- the invariant, `q` being the published and unread elements ----

  ghost predicate Inv(w: World, q: seq<Elem>) {
    && Consistent(w.buf, w.head, w.tail, q)
    && w.committed == w.consumed + Payloads(q)
    && (w.prod.Reserved? ==> Claim(|w.buf|, w.head, Total(q), w.prod.rsvd, w.prod.gapd))
    && ConsInv(w.cons, |w.buf|, w.tail, q)
  }

  ghost predicate ConsInv(c: Consumer, size: nat, tail: nat, q: seq<Elem>) {
    match c
    case Waiting => true
    case Loaded(space) => |q| > 0 && (q[0].Gap? ==> tail + space > size)
    case AtGap => |q| > 0 && q[0].Gap?
    case PastGap => |q| > 0 && q[0].Chunk? && tail == 0
    case Reading(at, len, got) =>
      |q| > 0 && q[0].Chunk? && at == tail + 8 && len == |q[0].payload| && got <= q[0].payload
  }

  lemma InitHolds(w: World)
    requires Init(w)
    ensures Inv(w, [])
  {
  }

  lemma ProducerKeeps(w: World, w': World, q: seq<Elem>) returns (q': seq<Elem>)
    requires Inv(w, q) && ProducerStep(w, w')
    ensures Inv(w', q')
  {
    hide Consistent, Tiles, HeadersInPlace, Added;
    q' := q;
    if minimum :| Request(w, w', minimum) {
      if Reserve(|w.buf|, w.head, w.tail, minimum).Granted? {
        ReserveClaims(w.buf, w.head, w.tail, q, minimum);
      }
    } else if i, v :| Store(w, w', i, v) {
      WritesKeep(w.buf, w'.buf, w.head, w.tail, q, w.prod.rsvd, w.prod.gapd);
    } else {
      var written :| Publish(w, w', written);
      q' := PublicationKeeps(w, w', q, written);
    }
  }

  lemma PublicationKeeps(w: World, w': World, q: seq<Elem>, written: nat) returns (q': seq<Elem>)
    requires Inv(w, q) && Publish(w, w', written)
    ensures Inv(w', q')
  {
    hide Consistent, HeadersInPlace, Added, Payloads;
    var Reserved(r, g) := w.prod;
    var add := Added(w.buf, w.head, g, written);
    PublishKeeps(w.buf, w.head, w.tail, q, r, g, written);
    TotalAppend(q, add);
    q' := q + add;
    assert |q| > 0 ==> q'[0] == q[0];
    assert w'.committed == w'.consumed + Payloads(q');
  }

  lemma AdvanceKeeps(w: World, w': World, q: seq<Elem>)
    requires Inv(w, q) && Advance(w, w')
    ensures |q| > 0 && Inv(w', q[1..])
  {
    hide Consistent, Payloads, U32At, Holds;
    FirstUnread(w.buf, w.head, w.tail, q);
    DropFirst(w.buf, w.head, w.tail, q);
    assert w.cons.got == q[0].payload;
    assert w'.committed == w'.consumed + Payloads(q[1..]);
  }

  lemma SkipKeeps(w: World, w': World, q: seq<Elem>)
    requires Inv(w, q) && SkipGap(w, w')
    ensures |q| > 0 && Inv(w', q[1..])
  {
    hide Consistent, Payloads, U32At, Holds;
    FirstUnread(w.buf, w.head, w.tail, q);
    DropFirst(w.buf, w.head, w.tail, q);
    assert [] + Payloads(q[1..]) == Payloads(q[1..]);
  }

  lemma ReadingKeeps(w: World, w': World, q: seq<Elem>)
    requires Inv(w, q)
    requires LoadHead(w, w') || Inspect(w, w') || InspectStart(w, w') || ReadByte(w, w') || Abandon(w, w')
    ensures Inv(w', q)
  {
    hide Consistent, Payloads, U32At;
    if LoadHead(w, w') {
      LoadedSound(w.buf, w.head, w.tail, q);
    } else {
      FirstUnread(w.buf, w.head, w.tail, q);
    }
  }

  lemma ConsumerKeeps(w: World, w': World, q: seq<Elem>) returns (q': seq<Elem>)
    requires Inv(w, q) && ConsumerStep(w, w')
    ensures Inv(w', q')
  {
    hide Inv;
    if Advance(w, w') {
      AdvanceKeeps(w, w', q);
      q' := q[1..];
    } else if SkipGap(w, w') {
      SkipKeeps(w, w', q);
      q' := q[1..];
    } else {
      ReadingKeeps(w, w', q);
      q' := q;
    }
  }

  // ---- whole runs ----

  ghost predicate Run(ws: seq<World>) {
    && |ws| > 0 && Init(ws[0])
    && forall i | 0 < i < |ws| :: Next(ws[i - 1], ws[i])
  }

  lemma {:induction false} RunHolds(ws: seq<World>) returns (q: seq<Elem>)
    requires Run(ws)
    ensures Inv(ws[|ws| - 1], q)
  {
    hide Inv, ProducerStep, ConsumerStep;
    if |ws| == 1 {
      InitHolds(ws[0]);
      q := [];
    } else {
      var n := |ws| - 1;
      q := RunHolds(ws[..n]);
      assert Next(ws[n - 1], ws[n]);
      if ProducerStep(ws[n - 1], ws[n]) {
        q := ProducerKeeps(ws[n - 1], ws[n], q);
      } else {
        q := ConsumerKeeps(ws[n - 1], ws[n], q);
      }
    }
  }

  /** In every run the consumer obtains a prefix of the committed payloads, byte for byte and in order; the
      chunk it is copying is the next one, so far intact; and the ring looks empty exactly when nothing is
      pending. */
  lemma FifoInEveryRun(ws: seq<World>)
    requires Run(ws)
    ensures var w := ws[|ws| - 1];
            && w.consumed <= w.committed
            && (w.head == w.tail <==> w.consumed == w.committed)
            && (w.cons.Reading? ==>
                  && |w.consumed| < |w.committed|
                  && w.cons.len == |w.committed[|w.consumed|]|
                  && w.cons.got <= w.committed[|w.consumed|])
  {
    var q := RunHolds(ws);
    var w := ws[|ws| - 1];
    hide Tiles;
    LoadedSound(w.buf, w.head, w.tail, q);
    if |q| > 0 {
      PendingPayload(w.buf, w.tail, q);
    }
    if w.cons.Reading? {
      DropPayload(q);
    }
  }

  /** In every run no byte the producer may still write is published and unread, however stale its snapshot
      of the tail; indices stay aligned and inside the body. */
  lemma ReservationNeverTouchesUnread(ws: seq<World>)
    requires Run(ws)
    ensures var w := ws[|ws| - 1];
            && w.head < |w.buf| && w.tail < |w.buf| && w.head % 8 == 0 && w.tail % 8 == 0
            && (w.prod.Reserved? ==>
                  forall i: nat | Writable(|w.buf|, w.head, w.prod.rsvd, w.prod.gapd, i) ::
                    i < |w.buf| && !Published(|w.buf|, w.tail, Dist(|w.buf|, w.tail, w.head), i))
  {
    var q := RunHolds(ws);
    var w := ws[|ws| - 1];
    hide Tiles, Writable, Payloads;
    LoadedSound(w.buf, w.head, w.tail, q);
    if w.prod.Reserved? {
      forall i: nat | Writable(|w.buf|, w.head, w.prod.rsvd, w.prod.gapd, i)
        ensures i < |w.buf| && !Published(|w.buf|, w.tail, Dist(|w.buf|, w.tail, w.head), i)
      {
        WritableIsUnpublished(|w.buf|, w.head, w.tail, Total(q), w.prod.rsvd, w.prod.gapd, i);
      }
    }
  }

  /** In every run a read request that sees a head ahead of its tail hands out a chunk, never a gap: neither
      the contiguous branch nor the start of the body behind a skipped gap holds one. */
  lemma ReadNeverHandsOutGap(ws: seq<World>)
    requires Run(ws)
    ensures var w := ws[|ws| - 1];
            && (w.cons.Loaded? && w.tail + w.cons.space <= |w.buf| ==>
                  w.tail + 8 <= |w.buf| && U32At(w.buf, w.tail + 4) == 0)
            && (w.cons.AtGap? ==> w.tail + 8 <= |w.buf| && w.tail + 8 + U32At(w.buf, w.tail) == |w.buf|)
            && (w.cons.PastGap? ==> 8 <= |w.buf| && U32At(w.buf, 4) == 0)
            && (w.cons.Reading? ==> w.tail + 8 + w.cons.len <= |w.buf| && U32At(w.buf, w.tail + 4) == 0)
  {
    var q := RunHolds(ws);
    var w := ws[|ws| - 1];
    hide Consistent, Payloads;
    if |q| > 0 {
      FirstUnread(w.buf, w.head, w.tail, q);
    }
  }

  // ---- what the ring's operations do is made of these steps ----

  /** A sequence of steps. */
  ghost predicate Path(ws: seq<World>, from: World, to: World) {
    && |ws| > 0 && ws[0] == from && ws[|ws| - 1] == to
    && forall i | 0 < i < |ws| :: Next(ws[i - 1], ws[i])
  }

  lemma PathSnoc(ws: seq<World>, from: World, mid: World, to: World)
    requires Path(ws, from, mid) && Next(mid, to)
    ensures Path(ws + [to], from, to)
  {
    hide Next;
  }

  /** Writing any new contents into the reservation is a run of single stores. */
  lemma {:induction false} StoresReach(w: World, c: seq<byte>, n: nat) returns (ws: seq<World>)
    requires w.prod.Reserved? && |c| == |w.buf| && n <= |c|
    requires forall i: nat | i < |c| && !Writable(|c|, w.head, w.prod.rsvd, w.prod.gapd, i) :: c[i] == w.buf[i]
    ensures Path(ws, w, w.(buf := c[..n] + w.buf[n..]))
  {
    if n == 0 {
      assert c[..0] + w.buf[0..] == w.buf;
      ws := [w];
    } else {
      var mid := w.(buf := c[..n - 1] + w.buf[n - 1..]);
      var to := w.(buf := c[..n] + w.buf[n..]);
      ws := StoresReach(w, c, n - 1);
      if c[n - 1] == w.buf[n - 1] {
        assert mid.buf == to.buf;
      } else {
        assert to.buf == mid.buf[n - 1 := c[n - 1]];
        assert Store(mid, to, n - 1, c[n - 1]);
        PathSnoc(ws, w, mid, to);
        ws := ws + [to];
      }
    }
  }

  /** Filling a reservation and `WriteAdvance`, as their contracts describe them, are stores followed by one
      publication. */
  lemma WriteAdvanceIsSteps(w: World, c: seq<byte>, written: nat) returns (ws: seq<World>, to: World)
    requires w.prod.Reserved? && |c| == |w.buf|
    requires forall i: nat | i < |c| && !Writable(|c|, w.head, w.prod.rsvd, w.prod.gapd, i) :: c[i] == w.buf[i]
    requires 8 + Pad8(written) <= w.prod.rsvd
    requires HeadersInPlace(c, w.head, w.prod.gapd, written)
    requires Base(w.head, w.prod.gapd) + 8 + written <= |c|
    ensures var at := Base(w.head, w.prod.gapd) + 8;
            to == w.(buf := c, prod := Idle,
                     head := Step(|c|, w.head, w.prod.gapd + 8 + Pad8(written)),
                     committed := w.committed + [c[at..at + written]])
    ensures Path(ws, w, to)
  {
    hide HeadersInPlace, Writable;
    ws := StoresReach(w, c, |c|);
    var mid := w.(buf := c);
    assert c[..|c|] + w.buf[|c|..] == c;
    var at := Base(w.head, w.prod.gapd) + 8;
    to := w.(buf := c, prod := Idle, head := Step(|c|, w.head, w.prod.gapd + 8 + Pad8(written)),
             committed := w.committed + [c[at..at + written]]);
    assert Publish(mid, to, written);
    PathSnoc(ws, w, mid, to);
    ws := ws + [to];
  }

  /** `ReadRequest` on a ring that holds something, as its contract describes it, is a load of the head, an
      inspection and, behind a gap, the store of the tail and a second inspection. */
  lemma ReadRequestIsSteps(w: World, q: seq<Elem>) returns (ws: seq<World>, to: World)
    requires Inv(w, q) && w.cons.Waiting? && |q| > 0
    ensures w.tail + 8 <= |w.buf| && 8 <= |w.buf|
    ensures var tail := if U32At(w.buf, w.tail + 4) != 0 then 0 else w.tail;
            tail + 8 <= |w.buf| && to == w.(tail := tail, cons := Reading(tail + 8, U32At(w.buf, tail), []))
    ensures Path(ws, w, to)
  {
    hide Consistent, U32At, Payloads;
    FirstUnread(w.buf, w.head, w.tail, q);
    LoadedSound(w.buf, w.head, w.tail, q);
    var loaded := w.(cons := Loaded(Dist(|w.buf|, w.tail, w.head)));
    assert LoadHead(w, loaded);
    ws := [w, loaded];
    if q[0].Gap? {
      var atGap, pastGap := loaded.(cons := AtGap), loaded.(tail := 0, cons := PastGap);
      to := pastGap.(cons := Reading(8, U32At(w.buf, 0), []));
      assert Inspect(loaded, atGap) && SkipGap(atGap, pastGap) && InspectStart(pastGap, to);
      ws := ws + [atGap, pastGap, to];
    } else {
      to := loaded.(cons := Reading(w.tail + 8, U32At(w.buf, w.tail), []));
      assert Inspect(loaded, to);
      ws := ws + [to];
    }
  }
}
