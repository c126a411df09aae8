/** The packet handlers, the deferred list and the beat of main.c. */
module App {
  import opened Bytes
  import opened Osc
  import opened Unambiguous
  import opened Reader
  import opened Slots
  import opened Dispatch
  import opened State
  import opened Schedule
  import opened Ring

  /** An element of the deferred list, with its copy of the message's bytes. */
  class Sched {
    var next: Sched?
    const sec: int
    const nsec: int
    const buf: seq<byte>
    ghost const msg: Message

    constructor (sec: int, nsec: int, buf: seq<byte>, ghost msg: Message)
      ensures next == null && this.sec == sec && this.nsec == nsec && this.buf == buf && this.msg == msg
    {
      next := null;
      this.sec, this.nsec, this.buf, this.msg := sec, nsec, buf, msg;
    }

    ghost function Value(): Due { Due(sec, nsec, msg) }
  }

  ghost function Nth(nodes: seq<Sched>, k: nat): Sched? {
    if k < |nodes| then nodes[k] else null
  }

  /** The linked list from `list` consists of exactly these nodes. */
  ghost predicate Chain(list: Sched?, nodes: seq<Sched>)
    reads nodes
  {
    && list == Nth(nodes, 0)
    && (forall i {:trigger nodes[i].next} | 0 <= i < |nodes| :: nodes[i].next == Nth(nodes, i + 1))
    && (forall i, j | 0 <= i < j < |nodes| :: nodes[i] != nodes[j])
  }

  ghost function Values(nodes: seq<Sched>): (ds: seq<Due>)
    ensures |ds| == |nodes| && forall i | 0 <= i < |nodes| :: ds[i] == nodes[i].Value()
  {
    seq(|nodes|, i requires 0 <= i < |nodes| => nodes[i].Value())
  }

  /** Link an element into the list where the comparison first holds. */
  method SchedAppend(list: Sched?, elmnt: Sched, ghost nodes: seq<Sched>)
    returns (head: Sched?, ghost k: nat)
    requires Chain(list, nodes) && elmnt !in nodes
    modifies nodes, elmnt
    ensures k == InsertPos(Values(nodes), elmnt.Value())
    ensures k <= |nodes| && Chain(head, nodes[..k] + [elmnt] + nodes[k..])
  {
    hide InsertPos;
    k := 0;
    if list == null {
      elmnt.next := null;
      InsertPosAt(Values(nodes), elmnt.Value(), 0);
      return elmnt, 0;
    }
    var prev: Sched? := null;
    var ptr := list;
    while ptr != null
      invariant Chain(list, nodes)
      invariant k <= |nodes| && ptr == Nth(nodes, k)
      invariant prev == (if k > 0 then nodes[k - 1] else null)
      invariant forall i | 0 <= i < k :: !Beyond(nodes[i].Value(), elmnt.Value())
      decreases |nodes| - k
    {
      if ptr.sec > elmnt.sec && ptr.nsec > elmnt.nsec {
        break;
      }
      prev := ptr;
      ptr := ptr.next;
      k := k + 1;
    }
    InsertPosAt(Values(nodes), elmnt.Value(), k);
    if prev == null {
      elmnt.next := list;
      head := elmnt;
    } else {
      elmnt.next := prev.next;
      prev.next := elmnt;
      head := list;
    }
    LinkedIn(head, elmnt, nodes, k);
  }

  lemma LinkedIn(head: Sched, elmnt: Sched, nodes: seq<Sched>, k: nat)
    requires k <= |nodes| && elmnt !in nodes
    requires head == if k == 0 then elmnt else nodes[0]
    requires forall i {:trigger nodes[i].next} | 0 <= i < |nodes| && i + 1 != k :: nodes[i].next == Nth(nodes, i + 1)
    requires k > 0 ==> nodes[k - 1].next == elmnt
    requires elmnt.next == Nth(nodes, k)
    requires forall i, j | 0 <= i < j < |nodes| :: nodes[i] != nodes[j]
    ensures Chain(head, nodes[..k] + [elmnt] + nodes[k..])
  {
    var r := nodes[..k] + [elmnt] + nodes[k..];
    forall i | 0 <= i < |r|
      ensures r[i].next == Nth(r, i + 1)
    {
      if i < k {
        assert r[i] == nodes[i] && nodes[i].next == r[i].next;
      } else if i > k {
        assert r[i] == nodes[i - 1] && nodes[i - 1].next == r[i].next;
      }
    }
  }

  lemma InsertPosAt(list: seq<Due>, d: Due, k: nat)
    requires k <= |list| && (k < |list| ==> Beyond(list[k], d))
    requires forall i | 0 <= i < k :: !Beyond(list[i], d)
    ensures InsertPos(list, d) == k
  {
    var p := InsertPos(list, d);
    assert p < |list| ==> Beyond(list[p], d);
  }

  ghost predicate NodeOk(n: Sched) {
    && Readable(Single(n.msg)) && Addressed(n.msg) && n.nsec == 0
    && MsgAt(n.buf, 0, n.msg) && |n.buf| == MsgSize(n.msg) < 0x8000_0000
  }

  lemma NewNodeOk(n: Sched)
    requires Readable(Single(n.msg)) && Addressed(n.msg) && n.nsec == 0
    requires MsgAt(n.buf, 0, n.msg) && |n.buf| == MsgSize(n.msg) < 0x8000_0000
    ensures NodeOk(n)
  {
  }

  lemma ValuesInsert(nodes: seq<Sched>, elmnt: Sched, k: nat)
    requires k == InsertPos(Values(nodes), elmnt.Value())
    ensures Values(nodes[..k] + [elmnt] + nodes[k..]) == Insert(Values(nodes), elmnt.Value())
  {
  }

  /** A message's bytes make up the message wherever they are copied. */
  lemma MessageCopy(b: seq<byte>, p: nat, m: Message)
    requires MsgAt(b, p, m) && AllReadBack(m.args)
    ensures p + MsgSize(m) <= |b| && MsgAt(b[p..p + MsgSize(m)], 0, m)
  {
    hide MsgSize;
    MsgFrame(b, p, b[p..p + MsgSize(m)], 0, m);
  }

  lemma MessageIsPacket(b: seq<byte>, m: Message)
    requires MsgAt(b, 0, m) && |b| == MsgSize(m) && |b| < 0x8000_0000
    ensures PacketAt(b, 0, Single(m)) && PacketSize(Single(m)) == |b|
  {
  }

  lemma ChainTail(nodes: seq<Sched>)
    requires |nodes| > 0 && Chain(nodes[0], nodes)
    ensures Chain(Nth(nodes, 1), nodes[1..]) && Values(nodes[1..]) == Values(nodes)[1..]
  {
    var r := nodes[1..];
    forall i | 0 <= i < |r|
      ensures r[i].next == Nth(r, i + 1)
    {
      assert nodes[i + 1].next == r[i].next;
    }
  }

  lemma ShowsInTable(lives: seq<map<nat, byte>>, c: nat, v: byte)
    requires |lives| == CHANNELS && c < CHANNELS && Shows(lives[c], v)
    requires forall p | p in lives[c] :: p < PRIORITIES
    ensures ShowsChannel(TableOf(lives), c, v)
  {
    var t := TableOf(lives);
    forall p: nat
      ensures (c, p) in t <==> p in lives[c]
      ensures p in lives[c] ==> t[(c, p)] == lives[c][p]
    {
      if p in lives[c] { assert (c, p) in Grid(); }
    }
    if lives[c] == map[] {
      assert forall p: nat :: (c, p) !in t;
    } else {
      var p :| p in lives[c] && lives[c][p] == v && forall q | q in lives[c] :: q <= p;
      assert (c, p) in t;
    }
  }

  lemma BundleReadable(b: seq<byte>, p: nat, t: u64, items: seq<Packet>)
    requires Readable(Bundle(t, items)) && PacketAt(b, p, Bundle(t, items))
    ensures PacketSize(Bundle(t, items)) == 16 + ItemsSize(items)
    ensures forall j | 0 <= j < |items| :: Readable(items[j])
  {
  }

  class Server {
    const state: DmxState
    const dmx: array<byte>        // the frame's data bytes
    var list: Sched?
    ghost var nodes: seq<Sched>

    ghost predicate Valid()
      reads this, state, state.objects, nodes
    {
      && state.SlotsValid() && dmx.Length == CHANNELS && dmx !in state.objects && this !in state.objects
      && Chain(list, nodes)
      && forall i | 0 <= i < |nodes| :: nodes[i] !in state.objects && NodeOk(nodes[i])
    }

    /** The table of live values and the deferred messages. */
    ghost function Value(): Sys
      requires Valid()
      reads this, state, state.objects, nodes
    {
      Sys(state.Table(), Values(nodes))
    }

    constructor (matches: Matcher)
      ensures Valid() && Value() == Sys(map[], []) && state.matches == matches
      ensures fresh(state) && fresh(state.objects) && fresh(dmx)
    {
      state := new DmxState(matches);
      dmx := new byte[CHANNELS](_ => 0);
      list, nodes := null, [];
      new;
      assert Values([]) == [];
    }

    /** Nodes are only ever added. */
    twostate predicate NewNodesFresh()
      reads this
    {
      forall i | 0 <= i < |nodes| :: nodes[i] in old(nodes) || fresh(nodes[i])
    }

    /** Handle one packet of `len` bytes at `at`. */
    method HandlePacket(timetag: u64, buf: seq<byte>, at: nat, len: nat, ghost k: Packet)
      requires Valid() && Readable(k) && PacketAt(buf, at, k) && len == PacketSize(k)
      modifies this`list, this`nodes, state, state.objects, nodes
      ensures Valid() && NewNodesFresh()
      ensures Value() == Handle(state.matches, old(Value()), k, timetag)
      ensures k.Single? && timetag == IMMEDIATE ==> list == old(list) && nodes == old(nodes)
      ensures k.Single? && !Addressed(k.msg) ==> Value() == old(Value())
      decreases len, 1
    {
      hide PacketAt, PacketSize, Handle, HandleItems, Insert, Apply, DmxState.SlotsValid, DmxState.Table;
      hide MsgAt, MsgSize, NodeOk, Chain, Readable;
      PacketBounds(buf, at, k);
      StartsWith(buf, at, k);
      HandleCases(state.matches, Value(), k, timetag);
      var reader := new OscReader(buf, at, len);
      if reader.IsBundle() {
        HandleBundle(reader, len, k.timetag, k.items);
      } else if reader.IsMessage() {
        if timetag == IMMEDIATE {
          state.HandleMessage(reader, len, k.msg);
        } else {
          MessageCopy(buf, at, k.msg);
          Defer(timetag, buf[at..at + len], k.msg);
        }
      }
    }

    /** Put a copy of a message on the list, with the due time its time tag gives. */
    method Defer(timetag: u64, buf: seq<byte>, ghost m: Message)
      requires Valid() && Readable(Single(m)) && Addressed(m)
      requires MsgAt(buf, 0, m) && |buf| == MsgSize(m) < 0x8000_0000
      modifies this`list, this`nodes, nodes
      ensures Valid() && NewNodesFresh()
      ensures var due := Due(DueSec(timetag), DueNsec(timetag), m);
              Value() == old(Value()).(pending := Insert(old(Value()).pending, due))
    {
      hide MsgAt, MsgSize, Readable, Addressed, NodeOk, Insert, DueNsec, Values, Chain;
      hide DmxState.SlotsValid, DmxState.Table;
      var elmnt := new Sched(timetag / TWO_32 - JAN_1970, DueNsec(timetag), buf, m);
      NewNodeOk(elmnt);
      Link(elmnt);
    }

    /** app->list = _sched_append(app->list, elmnt) */
    method Link(elmnt: Sched)
      requires Valid() && NodeOk(elmnt) && elmnt !in nodes && elmnt !in state.objects
      modifies this`list, this`nodes, nodes, elmnt
      ensures Valid() && forall i | 0 <= i < |nodes| :: nodes[i] in old(nodes) || nodes[i] == elmnt
      ensures Value() == old(Value()).(pending := Insert(old(Value()).pending, elmnt.Value()))
    {
      hide NodeOk, Insert, InsertPos, Values, Chain, DmxState.SlotsValid, DmxState.Table;
      ghost var k;
      list, k := SchedAppend(list, elmnt, nodes);
      ValuesInsert(nodes, elmnt, k);
      nodes := nodes[..k] + [elmnt] + nodes[k..];
    }

    /** Handle every item of a bundle with the bundle's time tag. */
    method HandleBundle(reader: OscReader, len: nat, ghost t: u64, ghost items: seq<Packet>)
      requires Valid() && reader !in state.objects && reader.Valid()
      requires Readable(Bundle(t, items)) && PacketAt(reader.buf, reader.ptr, Bundle(t, items))
      requires len == PacketSize(Bundle(t, items)) && reader.ptr + len == reader.end
      modifies this`list, this`nodes, state, state.objects, nodes, reader
      ensures Valid() && NewNodesFresh()
      ensures Value() == HandleItems(state.matches, old(Value()), items, t)
      decreases len, 0
    {
      hide PacketAt, ItemsAt, PacketSize, ItemsSize, Readable, HandleItems, Handle, Valid, Value;
      BundleReadable(reader.buf, reader.ptr, t, items);
      ghost var s0 := Value();
      ghost var p: nat := reader.ptr + 16;
      ghost var left := items;
      var itm := new Item();
      var ok := reader.ItemBegin(itm, len, t, items);
      while ok && !itm.IsEnd(reader)
        invariant Valid() && NewNodesFresh()
        invariant HandleItems(state.matches, s0, items, t) == HandleItems(state.matches, Value(), left, t)
        invariant forall j | 0 <= j < |left| :: Readable(left[j])
        invariant ok == (|left| > 0)
        invariant ok ==> itm.Holds(reader, t, p, left)
        invariant 16 + ItemsSize(left) <= len && reader !in state.objects
        decreases |left|
      {
        OscReader.ItemParts(reader.buf, p, left);
        HandleStep(state.matches, Value(), left, t);
        assert Readable(left[0]);
        HandlePacket(itm.timetag, reader.buf, itm.body, itm.size, left[0]);
        ok := reader.ItemNext(itm, t, p, left);
        p := p + 4 + PacketSize(left[0]);
        left := left[1..];
      }
      assert left == [];
      NoItems(state.matches, Value(), t);
    }

    /** Drain the ring: every chunk is a packet to handle at once. */
    method DrainRing(ring: Varchunk, ghost ks: seq<Packet>)
      requires Valid() && ring.Valid() && Apart(ring)
      requires Carries(ring.Contents(), ks)
      modifies this`list, this`nodes, state, state.objects, nodes
      modifies ring`tail, ring`queue
      ensures Valid() && NewNodesFresh() && ring.Valid() && ring.Contents() == []
      ensures Value() == HandleItems(state.matches, old(Value()), ks, IMMEDIATE)
    {
      hide HandleItems, Handle, Valid, Value, Varchunk.Valid, Varchunk.Contents, Readable, PacketAt, PacketSize;
      ghost var s0 := Value();
      ghost var left := ks;
      var buf: Option<nat>, len: nat := ring.ReadRequest();
      while buf.Some?
        invariant Valid() && NewNodesFresh() && ring.Valid() && Apart(ring)
        invariant Carries(ring.Contents(), left)
        invariant HandleItems(state.matches, s0, ks, IMMEDIATE) == HandleItems(state.matches, Value(), left, IMMEDIATE)
        invariant buf == None <==> ring.Contents() == []
        invariant buf.Some? ==> && ring.AtChunk() && buf.value + len <= ring.size == ring.buf.Length
                                && ring.buf[buf.value..buf.value + len] == ring.Contents()[0]
        decreases |left|
      {
        HandleStep(state.matches, Value(), left, IMMEDIATE);
        HandleChunk(ring, buf.value, len, left[0]);
        left := left[1..];
        buf, len := ring.ReadRequest();
      }
      assert left == [];
      NoItems(state.matches, Value(), IMMEDIATE);
    }

    /** The body of the ring's loop: the chunk is handled where it stands and then given back. */
    method HandleChunk(ring: Varchunk, at: nat, len: nat, ghost k: Packet)
      requires Valid() && ring.AtChunk() && Apart(ring) && at + len <= ring.buf.Length
      requires |ring.Contents()| > 0 && ring.buf[at..at + len] == ring.Contents()[0]
      requires Readable(k) && PacketAt(ring.Contents()[0], 0, k) && len == PacketSize(k)
      modifies this`list, this`nodes, state, state.objects, nodes
      modifies ring`tail, ring`queue
      ensures Valid() && NewNodesFresh() && ring.Valid() && ring.Contents() == old(ring.Contents())[1..]
      ensures Value() == Handle(state.matches, old(Value()), k, IMMEDIATE)
    {
      hide Handle, Valid, Value, Varchunk.Valid, Varchunk.Contents, Readable, PacketAt, PacketSize;
      HandlePacket(IMMEDIATE, ring.buf[at..at + len], 0, len, k);
      ring.ReadAdvance();
    }

    /** The ring's memory is not the server's. */
    ghost predicate Apart(ring: Varchunk)
      reads this
    {
      && ring !in state.objects && ring.buf !in state.objects && ring.buf != dmx
    }

    /** Drain the list: run what is due, up to the first element that is not. */
    method DrainList(sec: int, nsec: int)
      requires Valid()
      modifies this`list, this`nodes, state, state.objects, nodes
      ensures Valid() && NewNodesFresh()
      ensures Value() == Drain(state.matches, old(Value()), sec, nsec)
    {
      hide Drain, Apply, NodeOk, DmxState.SlotsValid, DmxState.Table;
      ghost var s0 := Value();
      while list != null
        invariant Valid() && NewNodesFresh()
        invariant Drain(state.matches, s0, sec, nsec) == Drain(state.matches, Value(), sec, nsec)
        decreases |nodes|
      {
        DrainStep(state.matches, Value(), sec, nsec);
        var diff := (sec - list.sec) as real;
        diff := diff + (nsec - list.nsec) as real * 0.000000001;
        if diff < 0.0 {
          break;
        }
        RunFirst();
      }
      DrainStep(state.matches, Value(), sec, nsec);
    }

    /** Handle the first element of the list, now as an immediate packet, and take it off. */
    method RunFirst()
      requires Valid() && list != null
      modifies this`list, this`nodes, state, state.objects, nodes
      ensures |old(nodes)| > 0 && |old(Value()).pending| > 0
      ensures Valid() && nodes == old(nodes)[1..]
      ensures var (t, list) := (old(Value()).table, old(Value()).pending);
              Value() == Sys(Apply(state.matches, t, list[0].msg), list[1..])
    {
      hide Handle, Apply, Readable, MsgAt, DmxState.SlotsValid, DmxState.Table;
      var elmnt := list;
      assert |nodes| > 0 && elmnt == nodes[0] && NodeOk(elmnt);
      MessageIsPacket(elmnt.buf, elmnt.msg);
      HandleCases(state.matches, Value(), Single(elmnt.msg), IMMEDIATE);
      HandlePacket(IMMEDIATE, elmnt.buf, 0, |elmnt.buf|, Single(elmnt.msg));
      list := elmnt.next;
      assert nodes[0].next == Nth(nodes, 1);
      ChainTail(nodes);
      nodes := nodes[1..];
    }

    /** Fill the frame: each channel shows its value at the greatest live priority, or 0. */
    method FillFrame()
      requires Valid()
      modifies dmx
      ensures Valid() && Value() == old(Value())
      ensures forall c | 0 <= c < CHANNELS :: ShowsChannel(Value().table, c, dmx[c])
    {
      hide Shows, ShowsChannel, TableOf, Chain, NodeOk, Slot.Live;
      for i := 0 to CHANNELS
        invariant Valid() && Value() == old(Value())
        invariant forall c | 0 <= c < i :: ShowsChannel(Value().table, c, dmx[c])
      {
        var slot := state.slots[i];
        var v := slot.GetVal();
        ShowsInTable(state.Lives(), i, v);
        dmx[i] := v;
      }
    }

    /** One beat, up to the transmission of the frame. */
    method OneBeat(ring: Varchunk, sec: int, nsec: int, ghost ks: seq<Packet>)
      requires Valid() && ring.Valid() && Apart(ring)
      requires Carries(ring.Contents(), ks)
      modifies this`list, this`nodes, state, state.objects, nodes, dmx
      modifies ring`tail, ring`queue
      ensures Valid() && NewNodesFresh() && ring.Valid() && ring.Contents() == []
      ensures Value() == Beat(state.matches, old(Value()), ks, sec, nsec)
      ensures forall c | 0 <= c < CHANNELS :: ShowsChannel(Value().table, c, dmx[c])
    {
      hide HandleItems, Drain, ShowsChannel, Varchunk.Valid, Varchunk.Contents, Carries;
      DrainRing(ring, ks);
      DrainList(sec, nsec);
      FillFrame();
    }
  }

  /** The chunks are the bytes of these packets. */
  ghost predicate Carries(chunks: seq<seq<byte>>, ks: seq<Packet>) {
    && |chunks| == |ks|
    && forall i | 0 <= i < |ks| ::
         Readable(ks[i]) && PacketAt(chunks[i], 0, ks[i]) && |chunks[i]| == PacketSize(ks[i])
  }

  /** Channel `c` of the table shows `v`: the value at its greatest live priority, or 0 if it has none. */
  ghost predicate ShowsChannel(t: Table, c: nat, v: byte) {
    if forall p: nat :: (c, p) !in t then v == 0
    else exists p: nat | (c, p) in t :: t[(c, p)] == v && forall q: nat | (c, q) in t :: q <= p
  }
}
