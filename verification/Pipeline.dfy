/** The components put together: packets written, framed, split, passed through the ring and run at a beat. */
module Pipeline {
  import opened Bytes
  import opened Osc
  import opened Unambiguous
  import opened Writer
  import opened Reader
  import opened Slip
  import opened SlipInline
  import opened RingLayout
  import opened Ring
  import opened Stream
  import opened Dispatch
  import opened Schedule
  import opened App

  const BUFFER: nat := 0x4000   // the stream's transmit and receive buffers
  const RING: nat := 8192       // the program's rings

  /** Write a packet into a buffer of the given size; the bytes are None if the writer refused. */
  method Serialise(k: Packet, size: nat) returns (bytes: Option<seq<byte>>)
    requires PacketOk(k) && size < 0x8000_0000
    ensures bytes.Some? <==> Acceptable(k) && PacketSize(k) < size
    ensures bytes.Some? ==> |bytes.value| == PacketSize(k) && PacketAt(bytes.value, 0, k)
    ensures bytes.Some? ==> |bytes.value| > 0 && |bytes.value| % 4 == 0
  {
    hide PacketAt, PacketOk, Acceptable;
    var buf := new byte[size];
    var writer := new OscWriter(buf, size);
    var ok := writer.WritePacket(k);
    if !ok { return None; }
    PacketFrame(buf[..], 0, buf[..writer.ptr], 0, k);
    bytes := Some(buf[..writer.ptr]);
  }

  /** Writing a packet and reading it back gives the packet, whenever it can be written at all. */
  method RoundTrip(k: Packet, size: nat) returns (r: Option<Packet>)
    requires Readable(k) && size < 0x8000_0000
    ensures r.Some? <==> Acceptable(k) && PacketSize(k) < size
    ensures r.Some? ==> r.value == k
  {
    hide PacketAt, Acceptable;
    ReadableIsOk(k);
    var bytes := Serialise(k, size);
    if bytes.None? { return None; }
    var p := ReadPacket(bytes.value, 0, |bytes.value|, k);
    r := Some(p);
  }

  lemma {:induction false} ReadableIsOk(k: Packet)
    requires Readable(k)
    ensures PacketOk(k)
  {
    if k.Bundle? {
      forall j | 0 <= j < |k.items|
        ensures PacketOk(k.items[j])
      {
        ReadableIsOk(k.items[j]);
      }
    }
  }

  // ---- the transmit buffer ----

  /** What becomes of a packet's bytes: nothing is sent, the encoder leaves the transmit buffer, or they are
      sent as a frame. */
  datatype Sent = Skipped | Overrun | Wire(bytes: seq<byte>)

  /** The transmit step, whose guard compares the length before encoding with the buffer: the frame is encoded
      in place and stays in the buffer exactly when the length, two and the number of END and ESC bytes do. */
  method Transmit(payload: seq<byte>) returns (r: Sent)
    ensures r == Skipped <==> |payload| == 0 || |payload| > 0x4000
    ensures r == Overrun <==> 0 < |payload| <= 0x4000 < |payload| + 2 + Specials(payload)
    ensures r.Wire? ==> r.bytes == Frame(payload)
  {
    hide Frame;
    FrameShape(payload);
    if |payload| > BUFFER { return Skipped; }
    var tx := new byte[BUFFER];
    forall i | 0 <= i < |payload| {
      tx[i] := payload[i];  // memcpy
    }
    assert tx[..|payload|] == payload;
    var n := Estimate(tx, |payload|);
    if |payload| > 0 && n > BUFFER {
      return Overrun;  // the encoder stores its closing END at n - 1
    }
    n := EncodeInline(tx, |payload|);
    r := if n == 0 then Skipped else Wire(tx[..n]);
  }

  function Repeated(b: byte, n: nat): (p: seq<byte>)
    ensures |p| == n && forall i | 0 <= i < n :: p[i] == b
  {
    seq(n, i => b)
  }

  lemma {:induction false} AllSpecial(n: nat)
    ensures Specials(Repeated(END, n)) == n
  {
    if n > 0 {
      AllSpecial(n - 1);
      assert Repeated(END, n)[1..] == Repeated(END, n - 1);
    }
  }

  /** The guard is too weak: a payload that fills the buffer passes it, and its frame does not fit. */
  lemma GuardTooWeak()
    ensures var p := Repeated(0, 0x4000); 0 < |p| <= 0x4000 < |p| + 2 + Specials(p)
  {
  }

  /** A test of the length alone keeps every frame in the buffer exactly if it leaves room to escape every byte. */
  lemma LengthGuardExact(n: nat)
    ensures (forall p: seq<byte> | |p| == n :: |Frame(p)| <= BUFFER) <==> 2 * n + 2 <= BUFFER
  {
    hide Frame;
    forall p: seq<byte> | |p| == n
      ensures |Frame(p)| <= 2 * n + 2
    {
      FrameShape(p);
    }
    AllSpecial(n);
    FrameShape(Repeated(END, n));
  }

  /** Within this program the guard does no harm: whatever its transmit ring can hold has a frame that fits. */
  lemma OwnRingNeverOverruns(head: nat, tail: nat, minimum: nat, p: seq<byte>)
    requires head < 8192 && tail < 8192 && Reserve(8192, head, tail, minimum).Granted?
    requires 8 + Pad8(|p|) <= Reserve(8192, head, tail, minimum).rsvd
    ensures |p| + 2 + Specials(p) <= 0x4000
  {
    hide Frame;
    FrameShape(p);
  }

  // ---- from packets to the wire ----

  /** A packet any component passes on. */
  ghost predicate Sendable(k: Packet) { Readable(k) && Acceptable(k) && PacketSize(k) < BUFFER }

  /** Write and frame packets one after the other, unless a frame leaves the transmit buffer. */
  method SendAll(ks: seq<Packet>) returns (wire: seq<byte>, ok: bool, payloads: seq<seq<byte>>)
    requires forall i | 0 <= i < |ks| :: Sendable(ks[i])
    ensures Carries(payloads, ks) && forall p | p in payloads :: |p| > 0
    ensures ok <==> forall i | 0 <= i < |payloads| :: |Frame(payloads[i])| <= BUFFER
    ensures ok ==> wire == Frames(payloads)
  {
    hide PacketAt, Acceptable, Readable, PacketSize, Frame, Frames;
    wire, ok, payloads := [], true, [];
    NoFrames();
    for i := 0 to |ks|
      invariant Carries(payloads, ks[..i]) && forall p | p in payloads :: |p| > 0
      invariant ok <==> forall j | 0 <= j < |payloads| :: |Frame(payloads[j])| <= BUFFER
      invariant ok ==> wire == Frames(payloads)
    {
      assert Sendable(ks[i]);
      ReadableIsOk(ks[i]);
      var bytes := Serialise(ks[i], BUFFER);
      FramesSnoc(payloads, bytes.value);
      FrameShape(bytes.value);
      var sent := Transmit(bytes.value);
      if ok && sent.Wire? {
        wire := wire + sent.bytes;
      } else {
        ok := false;
      }
      payloads := payloads + [bytes.value];
      assert payloads[i] == bytes.value && ks[..i + 1] == ks[..i] + [ks[i]];
    }
    assert ks[..|ks|] == ks;
  }

  lemma NoFrames()
    ensures Frames([]) == []
  {
  }

  lemma {:induction false} FramesSnoc(ps: seq<seq<byte>>, p: seq<byte>)
    ensures Frames(ps + [p]) == Frames(ps) + Frame(p)
  {
    hide Frame;
    if |ps| == 0 {
      assert ps + [p] == [p] && [p][1..] == [];
    } else {
      FramesSnoc(ps[1..], p);
      HeadTail(ps, [p]);
    }
  }

  lemma {:induction false} FrameInFrames(payloads: seq<seq<byte>>, i: nat)
    requires i < |payloads|
    ensures |Frame(payloads[i])| <= |Frames(payloads)|
  {
    hide Frame;
    if i > 0 { FrameInFrames(payloads[1..], i - 1); }
  }

  // ---- conditions a sender can check ----

  function PacketSizes(ks: seq<Packet>): (ns: seq<nat>)
    ensures |ns| == |ks| && forall i | 0 <= i < |ks| :: ns[i] == PacketSize(ks[i])
  {
    seq(|ks|, i requires 0 <= i < |ks| => PacketSize(ks[i]))
  }

  /** The most these packets need on the wire, with every byte escaped. */
  function WireBound(ks: seq<Packet>): nat {
    if |ks| == 0 then 0 else 2 * PacketSize(ks[0]) + 2 + WireBound(ks[1..])
  }

  /** The packets of several groups in order. */
  function Concat(groups: seq<seq<Packet>>): seq<Packet> {
    if |groups| == 0 then [] else groups[0] + Concat(groups[1..])
  }

  /** An empty ring whose indices stand at `at` takes all packets, and whichever group arrives in one receive is
      no longer than the receive buffer, which on a ring of the program's size need not be asked for. */
  ghost predicate Room(groups: seq<seq<Packet>>, size: nat, at: nat) {
    && at < size && Taken(size, at, at, PacketSizes(Concat(groups))) == |Concat(groups)|
    && (size <= RING || GroupsFit(groups))
  }

  ghost predicate GroupsFit(groups: seq<seq<Packet>>) {
    forall g | 0 <= g < |groups| :: WireBound(groups[g]) <= BUFFER
  }

  /** Half the ring is room enough. */
  lemma HalfIsRoom(groups: seq<seq<Packet>>, size: nat, at: nat)
    requires at < size && 2 * Asked(PacketSizes(Concat(groups))) <= size
    requires size <= RING || GroupsFit(groups)
    ensures Room(groups, size, at)
  {
    hide Concat, Taken, Asked, GroupsFit, PacketSize;
    var ns := PacketSizes(Concat(groups));
    EmptyRingTakesBurst(size, at, ns);
  }

  lemma {:induction false} WireBounded(payloads: seq<seq<byte>>, ks: seq<Packet>)
    requires Carries(payloads, ks)
    ensures |Frames(payloads)| <= WireBound(ks)
  {
    hide Frame, PacketAt, PacketSize, Readable;
    if |ks| > 0 {
      FrameShape(payloads[0]);
      WireBounded(payloads[1..], ks[1..]);
    }
  }

  lemma {:induction false} WireUses(ks: seq<Packet>)
    ensures WireBound(ks) <= 2 * Used(PacketSizes(ks))
  {
    hide PacketSize;
    if |ks| > 0 {
      WireUses(ks[1..]);
      assert PacketSizes(ks)[1..] == PacketSizes(ks[1..]);
    }
  }

  lemma {:induction false} WireBoundAppend(xs: seq<Packet>, ys: seq<Packet>)
    ensures WireBound(xs + ys) == WireBound(xs) + WireBound(ys)
  {
    hide PacketSize;
    if |xs| == 0 {
      assert xs + ys == ys;
    } else {
      WireBoundAppend(xs[1..], ys);
      HeadTail(xs, ys);
    }
  }

  lemma {:induction false} GroupBound(groups: seq<seq<Packet>>, g: nat)
    requires g < |groups|
    ensures WireBound(groups[g]) <= WireBound(Concat(groups))
  {
    hide WireBound;
    WireBoundAppend(groups[0], Concat(groups[1..]));
    if g > 0 { GroupBound(groups[1..], g - 1); }
  }

  /** With room for all, every group fits into one receive. */
  lemma RoomFits(groups: seq<seq<Packet>>, size: nat, at: nat, g: nat)
    requires Room(groups, size, at) && g < |groups|
    ensures WireBound(groups[g]) <= BUFFER
  {
    hide WireBound, Concat, Taken;
    if size <= RING {
      TakenFits(size, at, at, PacketSizes(Concat(groups)));
      WireUses(Concat(groups));
      GroupBound(groups, g);
    }
  }

  lemma SameSizes(payloads: seq<seq<byte>>, ks: seq<Packet>)
    requires Carries(payloads, ks)
    ensures Sizes(payloads) == PacketSizes(ks)
  {
    hide PacketAt, PacketSize, Readable;
  }

  lemma {:induction false} ConcatSnoc(groups: seq<seq<Packet>>, g: nat)
    requires g < |groups|
    ensures Concat(groups[..g + 1]) == Concat(groups[..g]) + groups[g]
    decreases g
  {
    if g == 0 {
      assert groups[..1] == [groups[0]] && [groups[0]][1..] == [];
    } else {
      ConcatSnoc(groups[1..], g - 1);
      assert groups[..g + 1][1..] == groups[1..][..g] && groups[..g][1..] == groups[1..][..g - 1];
    }
  }

  // ---- the whole way ----

  /** One group of packets arrives in one receive, behind what the ring holds already. */
  method ReceiveGroup(receiver: Receiver, ring: Varchunk, wire: seq<byte>, ghost payloads: seq<seq<byte>>,
                      ghost group: seq<Packet>)
    returns (n: nat, refused: bool)
    requires receiver.Valid() && ring.Valid() && receiver.rxBuf != ring.buf && receiver.rxOff == 0
    requires Carries(payloads, group) && forall p | p in payloads :: |p| > 0
    requires wire == Frames(payloads) && |wire| <= BUFFER
    modifies receiver`rxOff, receiver.rxBuf
    modifies ring`rsvd, ring`gapd, ring`head, ring`queue, ring.buf
    ensures receiver.Valid() && ring.Valid() && n <= |group| == |payloads|
    ensures old(ring.head) < ring.size && ring.tail < ring.size
    ensures n == Taken(ring.size, old(ring.head), ring.tail, PacketSizes(group))
    ensures ring.head == HeadAfter(ring.size, old(ring.head), ring.tail, PacketSizes(group))
    ensures ring.Contents() == old(ring.Contents()) + payloads[..n]
    ensures refused <==> n < |group|
    ensures !refused ==> receiver.rxOff == 0
  {
    hide Varchunk.Valid, Varchunk.Contents, Carries, Frames, Split, Parsed, Left, Taken, HeadAfter;
    hide PacketSizes, Sizes;
    ring.Indices();
    SameSizes(payloads, group);
    CarriesPrefix(payloads, group, 0);
    PutOnWire(receiver, wire);
    SplitWholeFrames(payloads);
    assert receiver.rxBuf[..receiver.rxOff + |wire|] == Frames(payloads);
    n, refused := receiver.Receive(|wire|, ring);
  }

  /** What was sent and taken so far: the groups up to `received` fit into a receive each, and of their packets
      the ring has taken, and holds, the first `delivered`. */
  ghost predicate Arrived(size: nat, head0: nat, head: nat, tail: nat, contents: seq<seq<byte>>,
                          sent: seq<Packet>, delivered: nat) {
    && head0 < size && tail < size && delivered <= |sent|
    && delivered == Taken(size, head0, tail, PacketSizes(sent))
    && head == HeadAfter(size, head0, tail, PacketSizes(sent))
    && Carries(contents, sent[..delivered])
  }

  /** The next group is received, or comes after a refusal and is not. */
  lemma ArrivedMore(size: nat, head0: nat, head: nat, head': nat, tail: nat, contents: seq<seq<byte>>,
                    sent: seq<Packet>, delivered: nat, group: seq<Packet>, payloads: seq<seq<byte>>, n: nat)
    requires Arrived(size, head0, head, tail, contents, sent, delivered)
    requires Carries(payloads, group)
    ensures delivered < |sent| ==> Arrived(size, head0, head, tail, contents, sent + group, delivered)
    ensures delivered == |sent| && n <= |group| == |payloads| && head < size
            && n == Taken(size, head, tail, PacketSizes(group))
            && head' == HeadAfter(size, head, tail, PacketSizes(group)) ==>
              Arrived(size, head0, head', tail, contents + payloads[..n], sent + group, delivered + n)
  {
    hide Taken, HeadAfter, Carries, PacketSizes;
    TakenAppend(size, head0, tail, PacketSizes(sent), PacketSizes(group));
    PacketSizesAppend(sent, group);
    if delivered < |sent| {
      assert (sent + group)[..delivered] == sent[..delivered];
    } else if n <= |group| == |payloads| {
      assert sent[..delivered] == sent;
      assert (sent + group)[..delivered + n] == sent + group[..n];
      CarriesPrefix(payloads, group, n);
      CarriesAppend(contents, sent, payloads[..n], group[..n]);
    }
  }

  lemma PacketSizesAppend(xs: seq<Packet>, ys: seq<Packet>)
    ensures PacketSizes(xs + ys) == PacketSizes(xs) + PacketSizes(ys)
  {
    hide PacketSize;
  }

  lemma CarriesAppend(x: seq<seq<byte>>, xs: seq<Packet>, y: seq<seq<byte>>, ys: seq<Packet>)
    requires Carries(x, xs) && Carries(y, ys)
    ensures Carries(x + y, xs + ys)
  {
    hide PacketAt, Readable, PacketSize;
  }

  /** The first half of the way: from packets to the chunks of an empty ring. The groups arrive one receive
      each, up to one whose frames are longer than the receive buffer. */
  method Send(receiver: Receiver, ring: Varchunk, groups: seq<seq<Packet>>)
    returns (delivered: nat, received: nat, ghost payloads: seq<seq<seq<byte>>>)
    requires receiver.Valid() && ring.Valid() && receiver.rxBuf != ring.buf
    requires receiver.rxOff == 0 && ring.Contents() == []
    requires forall g, i | 0 <= g < |groups| && 0 <= i < |groups[g]| :: Sendable(groups[g][i])
    modifies receiver`rxOff, receiver.rxBuf
    modifies ring`rsvd, ring`gapd, ring`head, ring`queue, ring.buf
    ensures receiver.Valid() && ring.Valid() && received <= |groups|
    ensures Receivable(payloads, groups, received)
    ensures Arrived(ring.size, old(ring.head), ring.head, ring.tail, ring.Contents(),
                    Concat(groups[..received]), delivered)
    ensures delivered == |Concat(groups[..received])| ==> receiver.rxOff == 0
  {
    hide Varchunk.Valid, Varchunk.Contents, Carries, Frames, Concat, Sendable, Arrived, Fitting;
    delivered, received, payloads := 0, 0, [];
    ghost var head0 := ring.head;
    ghost var sent: seq<Packet> := [];
    NothingArrived(ring, groups);
    var refused := false;
    for g := 0 to |groups|
      invariant receiver.Valid() && ring.Valid() && |payloads| == g && received <= g
      invariant forall h | 0 <= h < g :: Carries(payloads[h], groups[h])
      invariant Fitting(payloads, received)
      invariant sent == Concat(groups[..received])
      invariant Arrived(ring.size, head0, ring.head, ring.tail, ring.Contents(), sent, delivered)
      invariant refused <==> delivered < |sent|
      invariant !refused ==> delivered == |sent| && receiver.rxOff == 0
    {
      ghost var before, head := payloads, ring.head;
      var wire, ok, ps := SendAll(groups[g]);
      payloads := payloads + [ps];
      FittingMore(before, ps, received, ok);
      if received == g && ok && |wire| <= BUFFER {
        ConcatSnoc(groups, g);
        ghost var contents := ring.Contents();
        if refused {
          ArrivedMore(ring.size, head0, head, head, ring.tail, contents, sent, delivered, groups[g], ps, 0);
        } else {
          var n;
          n, refused := ReceiveGroup(receiver, ring, wire, ps, groups[g]);
          ArrivedMore(ring.size, head0, head, ring.head, ring.tail, contents, sent, delivered, groups[g], ps, n);
          delivered := delivered + n;
        }
        sent := sent + groups[g];
        received := g + 1;
      }
    }
  }

  /** The frames of the first `n` groups are no longer than the receive buffer, and those of the next are. */
  ghost predicate Fitting(payloads: seq<seq<seq<byte>>>, n: nat) {
    && n <= |payloads|
    && (forall g | 0 <= g < n :: |Frames(payloads[g])| <= BUFFER)
    && (n < |payloads| ==> |Frames(payloads[n])| > BUFFER)
  }

  /** These are the groups' bytes, and those of the first `n` groups fit. */
  ghost predicate Receivable(payloads: seq<seq<seq<byte>>>, groups: seq<seq<Packet>>, n: nat) {
    && |payloads| == |groups| && Fitting(payloads, n)
    && forall g | 0 <= g < |groups| :: Carries(payloads[g], groups[g])
  }

  lemma FittingMore(payloads: seq<seq<seq<byte>>>, ps: seq<seq<byte>>, n: nat, ok: bool)
    requires Fitting(payloads, n)
    requires ok <==> forall i | 0 <= i < |ps| :: |Frame(ps[i])| <= BUFFER
    ensures n < |payloads| ==> Fitting(payloads + [ps], n)
    ensures n == |payloads| && ok && |Frames(ps)| <= BUFFER ==> Fitting(payloads + [ps], n + 1)
    ensures n == |payloads| && !(ok && |Frames(ps)| <= BUFFER) ==> Fitting(payloads + [ps], n)
  {
    hide Frame, Frames;
    if !ok {
      var i :| 0 <= i < |ps| && |Frame(ps[i])| > BUFFER;
      FrameInFrames(ps, i);
    }
  }

  lemma NothingArrived(ring: Varchunk, groups: seq<seq<Packet>>)
    requires ring.Valid() && ring.Contents() == []
    ensures Concat(groups[..0]) == [] && ring.head == ring.tail < ring.size
    ensures Arrived(ring.size, ring.head, ring.head, ring.tail, ring.Contents(), [], 0)
    ensures Fitting([], 0)
  {
    RingIsEmpty(ring);
  }

  /** With room for all, all are received and delivered. */
  lemma RoomDelivers(payloads: seq<seq<seq<byte>>>, groups: seq<seq<Packet>>, received: nat, size: nat, at: nat)
    requires Receivable(payloads, groups, received) && Room(groups, size, at)
    ensures received == |groups| && groups[..received] == groups
    ensures Taken(size, at, at, PacketSizes(Concat(groups))) == |Concat(groups)|
  {
    hide Carries, Frames, Concat, Taken, WireBound;
    if received < |groups| {
      RoomFits(groups, size, at, received);
      WireBounded(payloads[received], groups[received]);
    }
  }

  /** From packets to the frame of DMX data. The packets sent before a beat arrive in receives of whole frames,
      grouped in any way. As many of them as the ring takes are handled at that beat exactly as they mean, in
      order; with room for them that is all. */
  method EndToEnd(server: Server, receiver: Receiver, ring: Varchunk, groups: seq<seq<Packet>>, sec: int, nsec: int)
    returns (delivered: nat, received: nat, ghost payloads: seq<seq<seq<byte>>>)
    requires Ready(server, receiver, ring)
    requires forall g, i | 0 <= g < |groups| && 0 <= i < |groups[g]| :: Sendable(groups[g][i])
    modifies server`list, server`nodes, server.state, server.state.objects, server.nodes, server.dmx
    modifies receiver`rxOff, receiver.rxBuf
    modifies ring`rsvd, ring`gapd, ring`head, ring`tail, ring`queue, ring.buf
    ensures server.Valid() && server.NewNodesFresh() && receiver.Valid() && ring.Valid() && ring.Contents() == []
    ensures Receivable(payloads, groups, received) && old(ring.head) < ring.size
    ensures var sent, at := Concat(groups[..received]), old(ring.head);
            && delivered == Taken(ring.size, at, at, PacketSizes(sent)) <= |sent|
            && ring.head == ring.tail == HeadAfter(ring.size, at, at, PacketSizes(sent))
            && (delivered == |sent| ==> receiver.rxOff == 0)
            && server.Value() == Beat(server.state.matches, old(server.Value()), sent[..delivered], sec, nsec)
    ensures Room(groups, ring.size, old(ring.head)) ==>
              received == |groups| && delivered == |Concat(groups)| && groups[..received] == groups
    ensures forall c | 0 <= c < CHANNELS :: ShowsChannel(server.Value().table, c, server.dmx[c])
  {
    hide Server.Valid, Server.Value, Varchunk.Valid, Varchunk.Contents, ShowsChannel, Carries;
    hide Beat, Sendable, Taken, HeadAfter, PacketSizes, Room, Receivable, Concat;
    ghost var at := ring.head;
    RingIsEmpty(ring);
    assert forall i | 0 <= i < |server.nodes| ::
             && server.nodes[i] as object != receiver.rxBuf && server.nodes[i] as object != ring
             && server.nodes[i] as object != ring.buf && server.nodes[i] as object != receiver;
    delivered, received, payloads := Send(receiver, ring, groups);
    if Room(groups, ring.size, at) { RoomDelivers(payloads, groups, received, ring.size, at); }
    server.OneBeat(ring, sec, nsec, Concat(groups[..received])[..delivered]);
    RingIsEmpty(ring);
  }

  /** The three components, with memory of their own, and nothing on its way. */
  ghost predicate Ready(server: Server, receiver: Receiver, ring: Varchunk)
    reads server, server.state, server.state.objects, server.nodes, receiver, ring, ring.buf
  {
    && server.Valid() && receiver.Valid() && ring.Valid() && server.Apart(ring)
    && receiver.rxBuf != ring.buf && receiver.rxBuf != server.dmx
    && receiver.rxBuf !in server.state.objects && receiver !in server.state.objects
    && receiver.rxOff == 0 && ring.Contents() == []
  }

  lemma RingIsEmpty(ring: Varchunk)
    requires ring.Valid() && ring.Contents() == []
    ensures ring.head == ring.tail < ring.size
  {
    ring.NothingPending();
  }

  /** What arrives before a beat, and the time of the beat. */
  datatype Arrival = Arrival(groups: seq<seq<Packet>>, sec: int, nsec: int)

  /** The beats as their packets and times. */
  function BeatsOf(arrivals: seq<Arrival>): (bs: seq<BeatIn>)
    ensures |bs| == |arrivals|
    ensures forall j | 0 <= j < |bs| ::
              bs[j] == BeatIn(Concat(arrivals[j].groups), arrivals[j].sec, arrivals[j].nsec)
  {
    seq(|arrivals|, j requires 0 <= j < |arrivals| =>
      BeatIn(Concat(arrivals[j].groups), arrivals[j].sec, arrivals[j].nsec))
  }

  /** There is room before every beat, the ring's indices going on from `at`. */
  ghost predicate RoomAll(arrivals: seq<Arrival>, size: nat, at: nat)
    decreases |arrivals|
  {
    |arrivals| == 0 ||
    (&& Room(arrivals[0].groups, size, at)
     && RoomAll(arrivals[1..], size, HeadAfter(size, at, at, PacketSizes(Concat(arrivals[0].groups)))))
  }

  /** Before every beat, half the ring is room enough. */
  lemma {:induction false} HalfIsRoomAll(arrivals: seq<Arrival>, size: nat, at: nat)
    requires at < size
    requires forall j | 0 <= j < |arrivals| :: 2 * Asked(PacketSizes(Concat(arrivals[j].groups))) <= size
    requires size <= RING || forall j | 0 <= j < |arrivals| :: GroupsFit(arrivals[j].groups)
    ensures RoomAll(arrivals, size, at)
    decreases |arrivals|
  {
    hide Asked, PacketSizes, Concat, GroupsFit, HeadAfter, Room;
    if |arrivals| > 0 {
      HalfIsRoom(arrivals[0].groups, size, at);
      HalfIsRoomAll(arrivals[1..], size, HeadAfter(size, at, at, PacketSizes(Concat(arrivals[0].groups))));
    }
  }

  /** Any number of beats, with room for what arrives before each: the server's state is the one the packets and
      the beats mean. */
  method Serve(server: Server, receiver: Receiver, ring: Varchunk, arrivals: seq<Arrival>)
    requires Ready(server, receiver, ring) && RoomAll(arrivals, ring.size, ring.head)
    requires forall j | 0 <= j < |arrivals| :: AllSendable(arrivals[j].groups)
    modifies server`list, server`nodes, server.state, server.state.objects, server.nodes, server.dmx
    modifies receiver`rxOff, receiver.rxBuf
    modifies ring`rsvd, ring`gapd, ring`head, ring`tail, ring`queue, ring.buf
    ensures Ready(server, receiver, ring)
    ensures server.Value() == Beats(server.state.matches, old(server.Value()), BeatsOf(arrivals))
    ensures |arrivals| > 0 ==> forall c | 0 <= c < CHANNELS :: ShowsChannel(server.Value().table, c, server.dmx[c])
  {
    hide Server.Value, Varchunk.Valid, Varchunk.Contents, ShowsChannel, Beat, Beats, Sendable, Room, RoomAll;
    hide Taken, HeadAfter, PacketSizes, Concat, Receivable;
    ghost var m, s0, bs := server.state.matches, server.Value(), BeatsOf(arrivals);
    assert bs[0..] == bs && arrivals[0..] == arrivals;
    for j := 0 to |arrivals|
      invariant Ready(server, receiver, ring) && server.NewNodesFresh()
      invariant RoomAll(arrivals[j..], ring.size, ring.head)
      invariant Beats(m, s0, bs) == Beats(m, server.Value(), bs[j..])
      invariant j > 0 ==> forall c | 0 <= c < CHANNELS :: ShowsChannel(server.Value().table, c, server.dmx[c])
    {
      BeatsStep(m, server.Value(), bs, j);
      RoomStep(arrivals, ring.size, ring.head, j);
      var a := arrivals[j];
      assert AllSendable(a.groups);
      ghost var ks := Concat(a.groups);
      var delivered, received;
      ghost var payloads;
      delivered, received, payloads := EndToEnd(server, receiver, ring, a.groups, a.sec, a.nsec);
      assert ks[..delivered] == ks;
    }
    BeatsStep(m, server.Value(), bs, |bs|);
  }

  ghost predicate AllSendable(groups: seq<seq<Packet>>) {
    forall g, i | 0 <= g < |groups| && 0 <= i < |groups[g]| :: Sendable(groups[g][i])
  }

  lemma RoomStep(arrivals: seq<Arrival>, size: nat, at: nat, j: nat)
    requires j < |arrivals| && RoomAll(arrivals[j..], size, at)
    ensures Room(arrivals[j].groups, size, at) && at < size
    ensures RoomAll(arrivals[j + 1..], size, HeadAfter(size, at, at, PacketSizes(Concat(arrivals[j].groups))))
  {
    hide Taken, HeadAfter, Concat;
    assert arrivals[j..][1..] == arrivals[j + 1..];
  }

  lemma BeatsStep(m: Matcher, s: Sys, bs: seq<BeatIn>, j: nat)
    requires j <= |bs|
    ensures Beats(m, s, bs[j..])
            == if j == |bs| then s
               else Beats(m, Beat(m, s, bs[j].packets, bs[j].sec, bs[j].nsec), bs[j + 1..])
  {
    hide Beat;
    if j < |bs| { assert bs[j..][1..] == bs[j + 1..]; }
  }

  // ---- frames cut across receives ----

  /** A frame that arrives in two receives: its packet is delivered exactly if it survives the cut and the ring
      has room for it. */
  method ReceiveInTwo(receiver: Receiver, ring: Varchunk, p: seq<byte>, c: nat) returns (n: nat)
    requires receiver.Valid() && ring.Valid() && receiver.rxBuf != ring.buf && receiver.rxOff == 0
    requires |p| > 0 && 1 <= c < |Frame(p)| <= BUFFER
    modifies receiver`rxOff, receiver.rxBuf
    modifies ring`rsvd, ring`gapd, ring`head, ring`queue, ring.buf
    ensures receiver.Valid() && ring.Valid() && old(ring.head) < ring.size && ring.tail < ring.size
    ensures |ring.Contents()| == |old(ring.Contents())| + n && old(ring.Contents()) <= ring.Contents()
    ensures p in ring.Contents()[|old(ring.Contents())|..]
            <==> Survives(p, c) && Reserve(ring.size, old(ring.head), ring.tail, |p|).Granted?
  {
    hide Varchunk.Valid, Varchunk.Contents, Frame, Split, Parsed, Left, Survives, Reserve, Taken, HeadAfter, Sizes;
    ring.Indices();
    var f := Frame(p);
    ghost var before := ring.Contents();
    ReceiveFirstPart(receiver, ring, p, c);
    SecondPart(p, c, ring.size, ring.head, ring.tail);
    PutOnWire(receiver, f[c..]);
    assert receiver.rxBuf[..receiver.rxOff + (|f| - c)] == Left(f[..c]) + f[c..];
    var refused;
    n, refused := receiver.Receive(|f| - c, ring);
    assert ring.Contents()[|before|..] == Split(Left(f[..c]) + f[c..]).0[..n];
  }

  /** The first part of a frame waits in the receive buffer, as the decoder left it. */
  method ReceiveFirstPart(receiver: Receiver, ring: Varchunk, p: seq<byte>, c: nat)
    requires receiver.Valid() && ring.Valid() && receiver.rxBuf != ring.buf && receiver.rxOff == 0
    requires 1 <= c < |Frame(p)| <= BUFFER
    modifies receiver`rxOff, receiver.rxBuf
    modifies ring`rsvd, ring`gapd, ring`head, ring`queue, ring.buf
    ensures receiver.Valid() && ring.Valid()
    ensures receiver.rxOff == c && receiver.rxBuf[..c] == Left(Frame(p)[..c])
    ensures ring.Contents() == old(ring.Contents()) && ring.head == old(ring.head)
  {
    hide Varchunk.Valid, Varchunk.Contents, Frame, Split, Parsed, Left, Taken, HeadAfter, Sizes;
    ring.Indices();
    var f := Frame(p);
    ghost var before := ring.Contents();
    PutOnWire(receiver, f[..c]);
    assert receiver.rxBuf[..c] == f[..c];
    FirstPart(p, c, ring.size, ring.head, ring.tail);
    var n, refused := receiver.Receive(c, ring);
    assert before + [] == before;
  }

  /** The frame of a bundle, or of a message whose address starts with a slash, survives only a cut right behind
      its opening END; and once the ring has refused it, it is never delivered. */
  lemma OscFrameSurvivesIff(k: Packet, p: seq<byte>, c: nat)
    requires Readable(k) && PacketAt(p, 0, k) && (k.Single? ==> Addressed(k.msg))
    requires 1 <= c <= |Frame(p)|
    ensures Survives(p, c) <==> c == 1
  {
    hide PacketAt, Readable, Survives;
    StartsWith(p, 0, k);
    if k.Bundle? { assert p[0 + 0] == BUNDLE_TAG[0]; }
    PlainStartSurvivesIff(p, c);
  }

  lemma FirstPart(p: seq<byte>, c: nat, size: nat, head: nat, tail: nat)
    requires 1 <= c < |Frame(p)| && head < size && tail < size
    ensures var s := Frame(p)[..c];
            && Split(s) == ([], 0) && s[Parsed(s, 0)..] == s
            && Taken(size, head, tail, Sizes(Split(s).0)) == 0
            && HeadAfter(size, head, tail, Sizes(Split(s).0)) == head
  {
    hide Frame, Split, Parsed;
    CutDeliversNothing(p, c);
    ParsedAll(Frame(p)[..c]);
  }

  lemma SecondPart(p: seq<byte>, c: nat, size: nat, head: nat, tail: nat)
    requires |p| > 0 && 1 <= c < |Frame(p)| && head < size && tail < size
    ensures var packets := Split(Left(Frame(p)[..c]) + Frame(p)[c..]).0;
            var n := Taken(size, head, tail, Sizes(packets));
            n <= |packets|
            && (p in packets[..n] <==> Survives(p, c) && Reserve(size, head, tail, |p|).Granted?)
  {
    hide Frame, Split, Left, Survives, Reserve, NextHead;
    var s := Left(Frame(p)[..c]) + Frame(p)[c..];
    CutSurvivesIff(p, c, []);
    assert s + [] == s && Split([]) == ([], 0) by { NothingSplit(); }
    if Survives(p, c) {
      assert Split(s).0 == [p] && Sizes([p])[1..] == [];
    }
  }

  lemma NothingSplit()
    ensures Split([]) == ([], 0)
  {
  }

  lemma CarriesPrefix(chunks: seq<seq<byte>>, ks: seq<Packet>, n: nat)
    requires Carries(chunks, ks) && n <= |chunks|
    ensures |chunks| == |ks| && Carries(chunks[..n], ks[..n])
  {
  }

  /** What recv does: the bytes arrive behind the remainder. */
  method PutOnWire(receiver: Receiver, wire: seq<byte>)
    requires receiver.Valid() && receiver.rxOff + |wire| <= receiver.rxBuf.Length
    modifies receiver.rxBuf
    ensures receiver.rxBuf[..receiver.rxOff + |wire|] == old(receiver.rxBuf[..receiver.rxOff]) + wire
  {
    var at := receiver.rxOff;
    forall i | 0 <= i < |wire| {
      receiver.rxBuf[at + i] := wire[i];
    }
  }

  function Singles(ms: seq<Message>): (ks: seq<Packet>)
    ensures |ks| == |ms| && forall i | 0 <= i < |ms| :: ks[i] == Single(ms[i])
  {
    seq(|ms|, i requires 0 <= i < |ms| => Single(ms[i]))
  }

  lemma {:induction false} SinglesRunNow(ms: seq<Message>)
    requires forall i | 0 <= i < |ms| :: Addressed(ms[i])
    ensures NowAll(Singles(ms), IMMEDIATE) == ms && LaterAll(Singles(ms), IMMEDIATE) == []
  {
    if |ms| > 0 {
      SinglesRunNow(ms[1..]);
      assert Singles(ms)[1..] == Singles(ms[1..]);
      assert ms == [ms[0]] + ms[1..];
    }
  }

  /** Plain messages with an address: their frames split into exactly their bytes, and a beat over them folds their
      meanings over the table in order, leaving nothing deferred. */
  lemma MessagesEndToEnd(m: Matcher, t: Table, ms: seq<Message>, payloads: seq<seq<byte>>, sec: int, nsec: int)
    requires Carries(payloads, Singles(ms)) && forall i | 0 <= i < |ms| :: Addressed(ms[i])
    ensures Split(Frames(payloads)) == (payloads, |Frames(payloads)|)
    ensures Beat(m, Sys(t, []), Singles(ms), sec, nsec) == Sys(Exec(m, t, ms), [])
  {
    hide Exec, Frames, Split, PacketAt, Readable;
    SplitWholeFrames(payloads);
    SinglesRunNow(ms);
    var s := HandleItems(m, Sys(t, []), Singles(ms), IMMEDIATE);
    assert s == Sys(Exec(m, t, ms), []);
    DrainStep(m, s, sec, nsec);
  }
}
