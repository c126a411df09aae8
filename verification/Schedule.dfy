/** What handling packets and beats means: messages run now, messages deferred, and the list they wait in. */
module Schedule {
  import opened Bytes
  import opened Osc
  import opened Dispatch

  const JAN_1970: int := 2208988800

  /** A deferred message with its stored due time. */
  datatype Due = Due(sec: int, nsec: int, msg: Message)

  function DueSec(timetag: u64): int { timetag / TWO_32 - JAN_1970 }

  /** The fraction is converted from `timetag && 32`, which is 0 or 1 and always truncates to 0. */
  function DueNsec(timetag: u64): (n: int)
    ensures n == 0
  {
    ((if timetag != 0 then 1.0 else 0.0) / 4294967296.0 * 1000000000.0).Floor
  }

  /** The due second is the whole second of the time tag, counted from 1970: 70 years with 17 leap days after
      the tag's own origin. */
  lemma DueSecOf(timetag: u64)
    ensures var s := DueSec(timetag) + (70 * 365 + 17) * 24 * 60 * 60;
            0x1_0000_0000 * s <= timetag < 0x1_0000_0000 * (s + 1)
  {
  }

  // ---- unrolling a packet ----

  /** The messages that run at once: those whose innermost time tag is immediate, in document order. A message
      whose address does not start with a slash is ignored. */
  function Now(k: Packet, tag: u64): seq<Message>
    decreases k, 0
  {
    match k
    case Single(m) => if Addressed(m) && tag == IMMEDIATE then [m] else []
    case Bundle(t, items) => NowAll(items, t)
  }

  function NowAll(items: seq<Packet>, tag: u64): seq<Message>
    decreases items
  {
    if |items| == 0 then [] else Now(items[0], tag) + NowAll(items[1..], tag)
  }

  /** The messages that are deferred, each with its innermost time tag. */
  function Later(k: Packet, tag: u64): seq<Due>
    decreases k, 0
  {
    match k
    case Single(m) => if !Addressed(m) || tag == IMMEDIATE then [] else [Due(DueSec(tag), DueNsec(tag), m)]
    case Bundle(t, items) => LaterAll(items, t)
  }

  function LaterAll(items: seq<Packet>, tag: u64): seq<Due>
    decreases items
  {
    if |items| == 0 then [] else Later(items[0], tag) + LaterAll(items[1..], tag)
  }

  /** All messages of a packet in document order, each with its innermost time tag. */
  function Messages(k: Packet, tag: u64): seq<(Message, u64)>
    decreases k, 0
  {
    match k
    case Single(m) => [(m, tag)]
    case Bundle(t, items) => MessagesAll(items, t)
  }

  function MessagesAll(items: seq<Packet>, tag: u64): seq<(Message, u64)>
    decreases items
  {
    if |items| == 0 then [] else Messages(items[0], tag) + MessagesAll(items[1..], tag)
  }

  function Immediate(e: (Message, u64)): seq<Message> {
    if Addressed(e.0) && e.1 == IMMEDIATE then [e.0] else []
  }

  function Deferred(e: (Message, u64)): seq<Due> {
    if !Addressed(e.0) || e.1 == IMMEDIATE then [] else [Due(DueSec(e.1), DueNsec(e.1), e.0)]
  }

  function ImmediateOf(ms: seq<(Message, u64)>): seq<Message> {
    if |ms| == 0 then [] else Immediate(ms[0]) + ImmediateOf(ms[1..])
  }

  function DeferredOf(ms: seq<(Message, u64)>): seq<Due> {
    if |ms| == 0 then [] else Deferred(ms[0]) + DeferredOf(ms[1..])
  }

  lemma {:induction false} SplitAppend(x: seq<(Message, u64)>, y: seq<(Message, u64)>)
    ensures ImmediateOf(x + y) == ImmediateOf(x) + ImmediateOf(y)
    ensures DeferredOf(x + y) == DeferredOf(x) + DeferredOf(y)
  {
    hide Immediate, Deferred;
    if |x| == 0 {
      assert x + y == y;
    } else {
      SplitAppend(x[1..], y);
      HeadTail(x, y);
      assert Immediate(x[0]) + (ImmediateOf(x[1..]) + ImmediateOf(y)) == ImmediateOf(x) + ImmediateOf(y);
      assert Deferred(x[0]) + (DeferredOf(x[1..]) + DeferredOf(y)) == DeferredOf(x) + DeferredOf(y);
    }
  }

  /** Every message of a packet that has an address is either run or deferred, never both: the two are the
      immediate and the other messages of the flat document order. */
  lemma {:induction false} PacketSplits(k: Packet, tag: u64)
    ensures Now(k, tag) == ImmediateOf(Messages(k, tag)) && Later(k, tag) == DeferredOf(Messages(k, tag))
    decreases k, 0
  {
    hide DueSec, DueNsec, Addressed;
    match k
    case Single(m) =>
      assert [(m, tag)][1..] == [];
    case Bundle(t, items) => ItemsSplit(items, t);
  }

  lemma {:induction false} ItemsSplit(items: seq<Packet>, tag: u64)
    ensures NowAll(items, tag) == ImmediateOf(MessagesAll(items, tag))
    ensures LaterAll(items, tag) == DeferredOf(MessagesAll(items, tag))
    decreases items
  {
    hide DueSec, DueNsec;
    if |items| > 0 {
      PacketSplits(items[0], tag);
      ItemsSplit(items[1..], tag);
      SplitAppend(Messages(items[0], tag), MessagesAll(items[1..], tag));
    }
  }

  // ---- the deferred list ----

  /** The list's comparison: both parts of the time have to be greater. */
  predicate Beyond(x: Due, d: Due) { x.sec > d.sec && x.nsec > d.nsec }

  /** Where `_sched_append` puts an element: before the first that lies beyond it. */
  function InsertPos(list: seq<Due>, d: Due): (k: nat)
    ensures k <= |list|
    ensures k < |list| ==> Beyond(list[k], d)
    ensures forall i | 0 <= i < k :: !Beyond(list[i], d)
  {
    if |list| == 0 || Beyond(list[0], d) then 0 else 1 + InsertPos(list[1..], d)
  }

  function Insert(list: seq<Due>, d: Due): (r: seq<Due>)
    ensures |r| == |list| + 1
    ensures multiset(r) == multiset(list) + multiset{d}
  {
    var k := InsertPos(list, d);
    assert list == list[..k] + list[k..];
    list[..k] + [d] + list[k..]
  }

  function InsertAll(list: seq<Due>, ds: seq<Due>): seq<Due>
    decreases |ds|
  {
    if |ds| == 0 then list else InsertAll(Insert(list, ds[0]), ds[1..])
  }

  lemma {:induction false} InsertAllAppend(list: seq<Due>, x: seq<Due>, y: seq<Due>)
    ensures InsertAll(list, x + y) == InsertAll(InsertAll(list, x), y)
    decreases |x|
  {
    hide Insert;
    if |x| == 0 {
      assert x + y == y;
    } else {
      InsertAllAppend(Insert(list, x[0]), x[1..], y);
      HeadTail(x, y);
    }
  }

  /** The comparison puts an element in its place as long as what is later in seconds is later in nanoseconds too:
      a list in order stays in order. */
  lemma InsertKeepsOrder(list: seq<Due>, d: Due)
    requires forall i, j | 0 <= i < j < |list| :: list[i].sec <= list[j].sec
    requires forall i | 0 <= i < |list| && list[i].sec > d.sec :: list[i].nsec > d.nsec
    ensures var r := Insert(list, d); forall i, j | 0 <= i < j < |r| :: r[i].sec <= r[j].sec
  {
    var k := InsertPos(list, d);
    assert forall i | k <= i < |list| :: list[k].sec <= list[i].sec;
  }

  /** An element is only put in front of others that are later in both parts. */
  lemma InsertBefore(list: seq<Due>, d: Due)
    ensures var k := InsertPos(list, d);
            && (k < |list| ==> d.sec < list[k].sec && d.nsec < list[k].nsec)
            && forall i | 0 <= i < k :: list[i].sec <= d.sec || list[i].nsec <= d.nsec
  {
  }

  /** As converted from time tags, due times have no nanoseconds. */
  predicate Whole(list: seq<Due>) { forall i | 0 <= i < |list| :: list[i].nsec == 0 }

  lemma InsertLast(list: seq<Due>, d: Due)
    requires Whole(list) && d.nsec == 0
    ensures Insert(list, d) == list + [d]
  {
    var k := InsertPos(list, d);
    assert k == |list|;
    assert list[..k] + [d] + list[k..] == list + [d];
  }

  /** With such due times the comparison never holds, and the list is a queue in order of arrival. */
  lemma {:induction false} InsertAllIsQueue(list: seq<Due>, ds: seq<Due>)
    requires Whole(list) && Whole(ds)
    ensures InsertAll(list, ds) == list + ds
    decreases |ds|
  {
    if |ds| == 0 {
      assert list + ds == list;
    } else {
      hide Insert;
      InsertLast(list, ds[0]);
      InsertAllIsQueue(list + [ds[0]], ds[1..]);
      assert list + [ds[0]] + ds[1..] == list + ds;
    }
  }

  lemma {:induction false} DeferredAreWhole(ms: seq<(Message, u64)>)
    ensures Whole(DeferredOf(ms))
  {
    hide DueSec, DueNsec;
    if |ms| > 0 { DeferredAreWhole(ms[1..]); }
  }

  // ---- beats ----

  datatype Sys = Sys(table: Table, pending: seq<Due>)

  function Exec(m: Matcher, t: Table, ms: seq<Message>): Table
    decreases |ms|
  {
    if |ms| == 0 then t else Exec(m, Apply(m, t, ms[0]), ms[1..])
  }

  lemma {:induction false} ExecAppend(m: Matcher, t: Table, x: seq<Message>, y: seq<Message>)
    ensures Exec(m, t, x + y) == Exec(m, Exec(m, t, x), y)
    decreases |x|
  {
    hide Apply;
    if |x| == 0 {
      assert x + y == y;
    } else {
      ExecAppend(m, Apply(m, t, x[0]), x[1..], y);
      HeadTail(x, y);
    }
  }

  /** The time comparison of the drain loop. */
  predicate IsDue(sec: int, nsec: int, d: Due) {
    var diff := (sec - d.sec) as real;
    diff + (nsec - d.nsec) as real * 0.000000001 >= 0.0
  }

  /** An element is due exactly if its time, in nanoseconds, is not after the beat's. */
  lemma DueInNanoseconds(sec: int, nsec: int, d: Due)
    ensures IsDue(sec, nsec, d) <==> d.sec * 1_000_000_000 + d.nsec <= sec * 1_000_000_000 + nsec
  {
  }

  /** How many elements one beat takes off the list: the longest prefix of due ones. */
  function DuePrefix(sec: int, nsec: int, list: seq<Due>): (n: nat)
    ensures n <= |list|
    ensures forall i | 0 <= i < n :: IsDue(sec, nsec, list[i])
    ensures n < |list| ==> !IsDue(sec, nsec, list[n])
  {
    if |list| == 0 || !IsDue(sec, nsec, list[0]) then 0 else 1 + DuePrefix(sec, nsec, list[1..])
  }

  function MessagesOf(ds: seq<Due>): (ms: seq<Message>)
    ensures |ms| == |ds| && forall i | 0 <= i < |ds| :: ms[i] == ds[i].msg
  {
    seq(|ds|, i requires 0 <= i < |ds| => ds[i].msg)
  }

  /** Handling one packet. */
  function Handle(m: Matcher, s: Sys, k: Packet, tag: u64): Sys {
    Sys(Exec(m, s.table, Now(k, tag)), InsertAll(s.pending, Later(k, tag)))
  }

  /** Handling the items of a bundle. */
  function HandleItems(m: Matcher, s: Sys, items: seq<Packet>, tag: u64): Sys {
    Sys(Exec(m, s.table, NowAll(items, tag)), InsertAll(s.pending, LaterAll(items, tag)))
  }

  lemma ExecOne(m: Matcher, t: Table, msg: Message)
    ensures Exec(m, t, [msg]) == Apply(m, t, msg) && Exec(m, t, []) == t
  {
    assert [msg][1..] == [];
  }

  lemma InsertOne(list: seq<Due>, d: Due)
    ensures InsertAll(list, [d]) == Insert(list, d) && InsertAll(list, []) == list
  {
    hide Insert;
    assert [d][1..] == [];
  }

  /** A message runs now or is deferred, by the tag it is handled with, or is ignored for want of an address;
      a bundle passes its own tag on. */
  lemma HandleCases(m: Matcher, s: Sys, k: Packet, tag: u64)
    ensures k.Single? && !Addressed(k.msg) ==> Handle(m, s, k, tag) == s
    ensures k.Single? && Addressed(k.msg) && tag == IMMEDIATE ==>
              Handle(m, s, k, tag) == s.(table := Apply(m, s.table, k.msg))
    ensures k.Single? && Addressed(k.msg) && tag != IMMEDIATE ==>
              Handle(m, s, k, tag) == s.(pending := Insert(s.pending, Due(DueSec(tag), DueNsec(tag), k.msg)))
    ensures k.Bundle? ==> Handle(m, s, k, tag) == HandleItems(m, s, k.items, k.timetag)
  {
    hide Apply, Insert, DueSec, DueNsec, Addressed;
    if k.Single? {
      ExecOne(m, s.table, k.msg);
      InsertOne(s.pending, Due(DueSec(tag), DueNsec(tag), k.msg));
    }
  }

  lemma NoItems(m: Matcher, s: Sys, tag: u64)
    ensures HandleItems(m, s, [], tag) == s
  {
  }

  lemma HandleStep(m: Matcher, s: Sys, items: seq<Packet>, tag: u64)
    requires |items| > 0
    ensures HandleItems(m, s, items, tag) == HandleItems(m, Handle(m, s, items[0], tag), items[1..], tag)
  {
    hide Exec, InsertAll, Now, Later;
    ExecAppend(m, s.table, Now(items[0], tag), NowAll(items[1..], tag));
    InsertAllAppend(s.pending, Later(items[0], tag), LaterAll(items[1..], tag));
  }

  /** The drain loop at a beat. */
  function Drain(m: Matcher, s: Sys, sec: int, nsec: int): Sys {
    var n := DuePrefix(sec, nsec, s.pending);
    Sys(Exec(m, s.table, MessagesOf(s.pending[..n])), s.pending[n..])
  }

  lemma DrainStep(m: Matcher, s: Sys, sec: int, nsec: int)
    ensures |s.pending| == 0 || !IsDue(sec, nsec, s.pending[0]) ==> Drain(m, s, sec, nsec) == s
    ensures |s.pending| > 0 && IsDue(sec, nsec, s.pending[0]) ==>
              Drain(m, s, sec, nsec)
              == Drain(m, Sys(Apply(m, s.table, s.pending[0].msg), s.pending[1..]), sec, nsec)
  {
    hide Apply, IsDue;
    var n := DuePrefix(sec, nsec, s.pending);
    if n == 0 {
      assert s.pending[0..] == s.pending && MessagesOf(s.pending[..0]) == [];
    } else {
      var rest := s.pending[1..];
      assert MessagesOf(s.pending[..n])[1..] == MessagesOf(rest[..n - 1]);
      assert s.pending[n..] == rest[n - 1..];
    }
  }

  /** One beat: the packets waiting in the ring, in order, and then the due part of the list. */
  function Beat(m: Matcher, s: Sys, packets: seq<Packet>, sec: int, nsec: int): Sys {
    Drain(m, HandleItems(m, s, packets, IMMEDIATE), sec, nsec)
  }

  // ---- whole runs of beats ----

  datatype BeatIn = BeatIn(packets: seq<Packet>, sec: int, nsec: int)

  function Beats(m: Matcher, s: Sys, bs: seq<BeatIn>): Sys
    decreases |bs|
  {
    if |bs| == 0 then s else Beats(m, Beat(m, s, bs[0].packets, bs[0].sec, bs[0].nsec), bs[1..])
  }

  /** Everything ever put on the list, in document order. */
  function Scheduled(bs: seq<BeatIn>): seq<Due> {
    if |bs| == 0 then [] else LaterAll(bs[0].packets, IMMEDIATE) + Scheduled(bs[1..])
  }

  /** What one beat takes off the list. */
  function BeatRun(m: Matcher, s: Sys, b: BeatIn): seq<(Due, BeatIn)> {
    var list := HandleItems(m, s, b.packets, IMMEDIATE).pending;
    seq(DuePrefix(b.sec, b.nsec, list), i requires 0 <= i < DuePrefix(b.sec, b.nsec, list) => (list[i], b))
  }

  /** Everything taken off the list, each with the beat that ran it. */
  function Executed(m: Matcher, s: Sys, bs: seq<BeatIn>): seq<(Due, BeatIn)>
    decreases |bs|
  {
    if |bs| == 0 then []
    else BeatRun(m, s, bs[0]) + Executed(m, Beat(m, s, bs[0].packets, bs[0].sec, bs[0].nsec), bs[1..])
  }

  function Dues(es: seq<(Due, BeatIn)>): seq<Due> { seq(|es|, i requires 0 <= i < |es| => es[i].0) }

  /** Over every run of beats nothing is lost or run twice: what was run and what still waits are together
      what was waiting at first and what was scheduled since, in that order; and nothing is run before its
      stored due time. */
  lemma {:induction false} DeferredListConserves(m: Matcher, s: Sys, bs: seq<BeatIn>)
    requires Whole(s.pending)
    ensures var es := Executed(m, s, bs);
            && Dues(es) + Beats(m, s, bs).pending == s.pending + Scheduled(bs)
            && forall i | 0 <= i < |es| :: IsDue(es[i].1.sec, es[i].1.nsec, es[i].0)
    decreases |bs|
  {
    hide Beat, HandleItems, LaterAll, IsDue, Dues;
    if |bs| == 0 {
      NoDues();
      assert s.pending + [] == [] + s.pending;
    } else {
      var b := bs[0];
      var next := Beat(m, s, b.packets, b.sec, b.nsec);
      var run := BeatRun(m, s, b);
      var later := LaterAll(b.packets, IMMEDIATE);
      BeatConserves(m, s, b);
      DeferredListConserves(m, next, bs[1..]);
      DuesAppend(run, Executed(m, next, bs[1..]));
      Regroup(Dues(run), Dues(Executed(m, next, bs[1..])), Beats(m, s, bs).pending,
              next.pending, Scheduled(bs[1..]), s.pending, later);
    }
  }

  lemma Regroup(run: seq<Due>, es: seq<Due>, end: seq<Due>, mid: seq<Due>, after: seq<Due>, start: seq<Due>,
                later: seq<Due>)
    requires es + end == mid + after && run + mid == start + later
    ensures run + es + end == start + (later + after)
  {
    assert run + es + end == run + (mid + after) == (run + mid) + after;
  }

  lemma NoDues()
    ensures Dues([]) == []
  {
  }

  lemma DuesAppend(x: seq<(Due, BeatIn)>, y: seq<(Due, BeatIn)>)
    ensures Dues(x + y) == Dues(x) + Dues(y)
  {
  }

  lemma BeatConserves(m: Matcher, s: Sys, b: BeatIn)
    requires Whole(s.pending)
    ensures var next, run := Beat(m, s, b.packets, b.sec, b.nsec), BeatRun(m, s, b);
            && Dues(run) + next.pending == s.pending + LaterAll(b.packets, IMMEDIATE)
            && Whole(next.pending)
            && forall i | 0 <= i < |run| :: IsDue(run[i].1.sec, run[i].1.nsec, run[i].0)
  {
    hide Exec, LaterAll, IsDue, InsertAll, NowAll, MessagesOf, Dues, BeatRun;
    var later := LaterAll(b.packets, IMMEDIATE);
    var list := s.pending + later;
    LaterIsWhole(b.packets);
    InsertAllIsQueue(s.pending, later);
    BeatRunIs(m, s, b);
    var n := DuePrefix(b.sec, b.nsec, list);
    assert list == list[..n] + list[n..];
  }

  lemma BeatRunIs(m: Matcher, s: Sys, b: BeatIn)
    ensures var list := HandleItems(m, s, b.packets, IMMEDIATE).pending;
            var run, n := BeatRun(m, s, b), DuePrefix(b.sec, b.nsec, list);
            && Dues(run) == list[..n]
            && forall i | 0 <= i < |run| :: IsDue(run[i].1.sec, run[i].1.nsec, run[i].0)
  {
    hide HandleItems, IsDue;
  }

  lemma {:induction false} InsertAllBalances(list: seq<Due>, ds: seq<Due>)
    ensures multiset(InsertAll(list, ds)) == multiset(list) + multiset(ds)
    decreases |ds|
  {
    hide InsertPos;
    if |ds| > 0 {
      InsertAllBalances(Insert(list, ds[0]), ds[1..]);
      assert ds == [ds[0]] + ds[1..];
    }
  }

  lemma BeatBalances(m: Matcher, s: Sys, b: BeatIn)
    ensures multiset(Dues(BeatRun(m, s, b))) + multiset(Beat(m, s, b.packets, b.sec, b.nsec).pending)
            == multiset(s.pending) + multiset(LaterAll(b.packets, IMMEDIATE))
  {
    hide Exec, LaterAll, IsDue, InsertAll, NowAll, MessagesOf, Dues, BeatRun;
    var list := HandleItems(m, s, b.packets, IMMEDIATE).pending;
    InsertAllBalances(s.pending, LaterAll(b.packets, IMMEDIATE));
    BeatRunIs(m, s, b);
    var n := DuePrefix(b.sec, b.nsec, list);
    assert list == list[..n] + list[n..];
  }

  /** Counted without order: whatever the list held at first, executed and pending are always exactly what was
      scheduled. */
  lemma {:induction false} DeferredListBalances(m: Matcher, s: Sys, bs: seq<BeatIn>)
    ensures multiset(Dues(Executed(m, s, bs))) + multiset(Beats(m, s, bs).pending)
            == multiset(s.pending) + multiset(Scheduled(bs))
    decreases |bs|
  {
    hide Beat, BeatRun, LaterAll, Dues;
    if |bs| == 0 {
      NoDues();
    } else {
      var next := Beat(m, s, bs[0].packets, bs[0].sec, bs[0].nsec);
      var run, later := BeatRun(m, s, bs[0]), LaterAll(bs[0].packets, IMMEDIATE);
      var es, rest := Executed(m, next, bs[1..]), Scheduled(bs[1..]);
      BeatBalances(m, s, bs[0]);
      DeferredListBalances(m, next, bs[1..]);
      DuesAppend(run, es);
      assert Scheduled(bs) == later + rest && Executed(m, s, bs) == run + es;
      var r, e, l := multiset(Dues(run)), multiset(Dues(es)), multiset(later);
      assert r + e + multiset(Beats(m, s, bs).pending) == r + (multiset(next.pending) + multiset(rest))
          == (r + multiset(next.pending)) + multiset(rest);
    }
  }

  lemma LaterIsWhole(items: seq<Packet>)
    ensures Whole(LaterAll(items, IMMEDIATE))
  {
    ItemsSplit(items, IMMEDIATE);
    DeferredAreWhole(MessagesAll(items, IMMEDIATE));
  }

  // ---- messages that wait past their due time ----

  /** Nothing that still waits is due. */
  ghost predicate NoneLate(s: Sys, sec: int, nsec: int) {
    forall i | 0 <= i < |s.pending| :: !IsDue(sec, nsec, s.pending[i])
  }

  /** The due times, in seconds, never go back along the list. */
  ghost predicate Ascending(list: seq<Due>) {
    forall i, j | 0 <= i < j < |list| :: list[i].sec <= list[j].sec
  }

  /** A beat leaves no due message waiting exactly when none stands behind one that is not due yet. */
  lemma DrainMissesNoneIff(m: Matcher, s: Sys, sec: int, nsec: int)
    ensures NoneLate(Drain(m, s, sec, nsec), sec, nsec)
            <==> (forall i, j | 0 <= i < j < |s.pending| ::
                    IsDue(sec, nsec, s.pending[j]) ==> IsDue(sec, nsec, s.pending[i]))
  {
    hide Exec, IsDue;
    var n := DuePrefix(sec, nsec, s.pending);
    var rest := s.pending[n..];
    assert Drain(m, s, sec, nsec).pending == rest;
    if j :| 0 <= j < |rest| && IsDue(sec, nsec, rest[j]) {
      assert s.pending[n + j] == rest[j] && !IsDue(sec, nsec, s.pending[n]);
    }
    forall i, j | 0 <= i < j < |s.pending| && IsDue(sec, nsec, s.pending[j]) && !IsDue(sec, nsec, s.pending[i])
      ensures exists k :: 0 <= k < |rest| && IsDue(sec, nsec, rest[k])
    {
      assert rest[j - n] == s.pending[j];
    }
  }

  lemma DueOrder(sec: int, nsec: int, x: Due, y: Due)
    requires x.nsec == y.nsec && x.sec <= y.sec && IsDue(sec, nsec, y)
    ensures IsDue(sec, nsec, x)
  {
  }

  lemma DueAtSecond(sec: int, d: Due)
    requires d.nsec == 0
    ensures IsDue(sec, 0, d) <==> d.sec <= sec
  {
  }

  /** With due times as stored, beats leave no due message waiting, whatever the time, exactly when the list's
      seconds never go back. */
  lemma DrainMissesNoneEverIff(m: Matcher, s: Sys)
    requires Whole(s.pending)
    ensures (forall sec: int, nsec: int :: NoneLate(Drain(m, s, sec, nsec), sec, nsec)) <==> Ascending(s.pending)
  {
    hide Drain, IsDue, NoneLate;
    var list := s.pending;
    if Ascending(list) {
      forall sec: int, nsec: int
        ensures NoneLate(Drain(m, s, sec, nsec), sec, nsec)
      {
        AscendingMissesNone(m, s, sec, nsec);
      }
    } else {
      var i, j :| 0 <= i < j < |list| && list[i].sec > list[j].sec;
      var sec := list[j].sec;
      DrainMissesNoneIff(m, s, sec, 0);
      DueAtSecond(sec, list[i]);
      DueAtSecond(sec, list[j]);
      assert !NoneLate(Drain(m, s, sec, 0), sec, 0);
    }
  }

  lemma AscendingMissesNone(m: Matcher, s: Sys, sec: int, nsec: int)
    requires Whole(s.pending) && Ascending(s.pending)
    ensures NoneLate(Drain(m, s, sec, nsec), sec, nsec)
  {
    hide Drain, IsDue, NoneLate;
    DrainMissesNoneIff(m, s, sec, nsec);
    forall i, j | 0 <= i < j < |s.pending| && IsDue(sec, nsec, s.pending[j])
      ensures IsDue(sec, nsec, s.pending[i])
    {
      DueOrder(sec, nsec, s.pending[i], s.pending[j]);
    }
  }

  /** Two bundles, the first due at second 10 and the second at second 5: at second 7 the second bundle's
      message is due and still waits. */
  lemma LateBehindLater(m: Matcher, t: Table, x: Message, y: Message)
    requires Addressed(x) && Addressed(y)
    ensures var later := Bundle((JAN_1970 + 10) * TWO_32, [Single(x)]);
            var sooner := Bundle((JAN_1970 + 5) * TWO_32, [Single(y)]);
            var s := Beat(m, Sys(t, []), [later, sooner], 7, 0);
            && s == Sys(t, [Due(10, 0, x), Due(5, 0, y)])
            && IsDue(7, 0, s.pending[1]) && !NoneLate(s, 7, 0)
  {
    hide Apply, Beat, Now, Later;
    OneDeferred(10, x);
    OneDeferred(5, y);
    TwoWait(m, t, Bundle((JAN_1970 + 10) * TWO_32, [Single(x)]), Bundle((JAN_1970 + 5) * TWO_32, [Single(y)]),
            Due(10, 0, x), Due(5, 0, y), 7);
  }

  lemma TwoWait(m: Matcher, t: Table, a: Packet, b: Packet, da: Due, db: Due, sec: int)
    requires Now(a, IMMEDIATE) == Now(b, IMMEDIATE) == []
    requires Later(a, IMMEDIATE) == [da] && Later(b, IMMEDIATE) == [db]
    requires da.nsec == db.nsec == 0 && da.sec > sec
    ensures Beat(m, Sys(t, []), [a, b], sec, 0) == Sys(t, [da, db])
  {
    hide Apply, Drain, InsertAll, Now, Later, NowAll, LaterAll, IsDue;
    TwoItems(a, b, IMMEDIATE);
    InsertAllIsQueue([], [da, db]);
    assert [da] + [db] == [da, db] && [] + [da, db] == [da, db];
    DueAtSecond(sec, da);
    DrainStep(m, Sys(t, [da, db]), sec, 0);
  }

  lemma OneDeferred(sec: nat, x: Message)
    requires Addressed(x) && sec < 1000
    ensures var k := Bundle((JAN_1970 + sec) * TWO_32, [Single(x)]);
            Now(k, IMMEDIATE) == [] && Later(k, IMMEDIATE) == [Due(sec, 0, x)]
  {
    var tag := (JAN_1970 + sec) * TWO_32;
    assert DueSec(tag) == sec && tag != IMMEDIATE;
    assert [Single(x)][1..] == [];
    assert NowAll([Single(x)], tag) == [];
    assert LaterAll([Single(x)], tag) == [Due(sec, 0, x)];
  }

  lemma TwoItems(a: Packet, b: Packet, tag: u64)
    ensures NowAll([a, b], tag) == Now(a, tag) + Now(b, tag)
    ensures LaterAll([a, b], tag) == Later(a, tag) + Later(b, tag)
  {
    hide Now, Later;
    assert [a, b][1..] == [b] && [b][1..] == [];
    assert NowAll([b], tag) == Now(b, tag) + [] && LaterAll([b], tag) == Later(b, tag) + [];
  }

  /** After every beat of the run nothing that is due still waits. */
  ghost predicate NeverLate(m: Matcher, s: Sys, bs: seq<BeatIn>)
    decreases |bs|
  {
    |bs| == 0 ||
    (var next := Beat(m, s, bs[0].packets, bs[0].sec, bs[0].nsec);
     NoneLate(next, bs[0].sec, bs[0].nsec) && NeverLate(m, next, bs[1..]))
  }

  /** The times a clock gives: nanoseconds below a second, and never going back. */
  ghost predicate Clocked(bs: seq<BeatIn>) {
    && (forall i | 0 <= i < |bs| :: 0 <= bs[i].nsec < 1_000_000_000)
    && (forall i, j | 0 <= i < j < |bs| ::
          bs[i].sec < bs[j].sec || (bs[i].sec == bs[j].sec && bs[i].nsec <= bs[j].nsec))
  }

  /** The same packets at the same beats, which may come at other times. */
  ghost predicate Retimed(rs: seq<BeatIn>, bs: seq<BeatIn>) {
    |rs| == |bs| && forall i | 0 <= i < |bs| :: rs[i].packets == bs[i].packets
  }

  lemma {:induction false} AscendingNeverLate(m: Matcher, s: Sys, bs: seq<BeatIn>)
    requires Whole(s.pending) && Ascending(s.pending + Scheduled(bs))
    ensures NeverLate(m, s, bs)
    decreases |bs|
  {
    hide Beat, LaterAll, IsDue, Dues, Scheduled, NoneLate;
    if |bs| > 0 {
      var b := bs[0];
      var next := Beat(m, s, b.packets, b.sec, b.nsec);
      var later, rest := LaterAll(b.packets, IMMEDIATE), Scheduled(bs[1..]);
      ScheduledFirst(bs);
      assert s.pending + Scheduled(bs) == s.pending + later + rest;
      BeatMissesNone(m, s, b, rest);
      BeatConserves(m, s, b);
      SuffixAscends(Dues(BeatRun(m, s, b)), next.pending, s.pending + later, rest);
      AscendingNeverLate(m, next, bs[1..]);
    }
  }

  lemma ScheduledFirst(bs: seq<BeatIn>)
    requires |bs| > 0
    ensures Scheduled(bs) == LaterAll(bs[0].packets, IMMEDIATE) + Scheduled(bs[1..])
  {
  }

  lemma SuffixAscends(run: seq<Due>, left: seq<Due>, list: seq<Due>, rest: seq<Due>)
    requires run + left == list && Ascending(list + rest)
    ensures Ascending(left + rest)
  {
    var all, n := list + rest, |run|;
    forall i, j | 0 <= i < j < |left + rest|
      ensures (left + rest)[i].sec <= (left + rest)[j].sec
    {
      assert all == run + (left + rest);
      assert all[n + i] == (left + rest)[i] && all[n + j] == (left + rest)[j];
    }
  }

  lemma BeatMissesNone(m: Matcher, s: Sys, b: BeatIn, rest: seq<Due>)
    requires Whole(s.pending) && Ascending(s.pending + LaterAll(b.packets, IMMEDIATE) + rest)
    ensures NoneLate(Beat(m, s, b.packets, b.sec, b.nsec), b.sec, b.nsec)
  {
    hide Exec, LaterAll, InsertAll, NowAll, Drain, NoneLate;
    var later := LaterAll(b.packets, IMMEDIATE);
    var list := s.pending + later;
    LaterIsWhole(b.packets);
    InsertAllIsQueue(s.pending, later);
    forall i, j | 0 <= i < j < |list|
      ensures list[i].sec <= list[j].sec
    {
      assert (list + rest)[i] == list[i] && (list + rest)[j] == list[j];
    }
    AscendingMissesNone(m, HandleItems(m, s, b.packets, IMMEDIATE), b.sec, b.nsec);
  }

  lemma {:induction false} NeverLateAtEnd(m: Matcher, s: Sys, bs: seq<BeatIn>)
    requires |bs| > 0 && NeverLate(m, s, bs)
    ensures var b := bs[|bs| - 1]; NoneLate(Beats(m, s, bs), b.sec, b.nsec)
    decreases |bs|
  {
    hide Beat, NoneLate;
    var next := Beat(m, s, bs[0].packets, bs[0].sec, bs[0].nsec);
    if |bs| == 1 {
      assert Beats(m, next, bs[1..]) == next;
    } else {
      NeverLateAtEnd(m, next, bs[1..]);
    }
  }

  lemma {:induction false} RetimedScheduled(rs: seq<BeatIn>, bs: seq<BeatIn>)
    requires Retimed(rs, bs)
    ensures Scheduled(rs) == Scheduled(bs)
    decreases |bs|
  {
    hide LaterAll;
    if |bs| > 0 { RetimedScheduled(rs[1..], bs[1..]); }
  }

  /** With an element behind a later one, beats at the sooner one's due time leave it waiting. */
  lemma LateSomewhere(m: Matcher, s: Sys, bs: seq<BeatIn>, i: nat, j: nat) returns (rs: seq<BeatIn>)
    requires Whole(s.pending) && |bs| > 0
    requires i < j < |s.pending + Scheduled(bs)|
    requires (s.pending + Scheduled(bs))[i].sec > (s.pending + Scheduled(bs))[j].sec
    ensures Retimed(rs, bs) && Clocked(rs) && !NeverLate(m, s, rs)
  {
    hide LaterAll, Beats, Executed, Scheduled, NeverLate, IsDue, Dues;
    var all := s.pending + Scheduled(bs);
    var sec := all[j].sec;
    rs := seq(|bs|, k requires 0 <= k < |bs| => BeatIn(bs[k].packets, sec, 0));
    RetimedScheduled(rs, bs);
    DeferredListConserves(m, s, rs);
    AllAt(m, s, rs, sec);
    var es, left := Executed(m, s, rs), Beats(m, s, rs).pending;
    ScheduledIsWhole(bs);
    DueAtSecond(sec, all[i]);
    DueAtSecond(sec, all[j]);
    DuesAt(es);
    assert all == Dues(es) + left;
    assert left[j - |es|] == all[j];
    if NeverLate(m, s, rs) { NeverLateAtEnd(m, s, rs); }
  }

  lemma DuesAt(es: seq<(Due, BeatIn)>)
    ensures |Dues(es)| == |es| && forall i | 0 <= i < |es| :: Dues(es)[i] == es[i].0
  {
  }

  lemma {:induction false} AllAt(m: Matcher, s: Sys, bs: seq<BeatIn>, sec: int)
    requires forall k | 0 <= k < |bs| :: bs[k].sec == sec && bs[k].nsec == 0
    ensures forall i | 0 <= i < |Executed(m, s, bs)| ::
              Executed(m, s, bs)[i].1.sec == sec && Executed(m, s, bs)[i].1.nsec == 0
    decreases |bs|
  {
    hide Beat, HandleItems;
    if |bs| > 0 {
      AllAt(m, Beat(m, s, bs[0].packets, bs[0].sec, bs[0].nsec), bs[1..], sec);
    }
  }

  lemma {:induction false} ScheduledIsWhole(bs: seq<BeatIn>)
    ensures Whole(Scheduled(bs))
  {
    hide LaterAll;
    if |bs| > 0 {
      LaterIsWhole(bs[0].packets);
      ScheduledIsWhole(bs[1..]);
    }
  }

  /** Over whole runs: whenever the clock makes the beats come, no due message is left waiting, exactly when
      the time tags, in seconds, never go back in the order of arrival. */
  lemma RunsMissNoneIff(m: Matcher, s: Sys, bs: seq<BeatIn>)
    requires Whole(s.pending)
    ensures (forall rs: seq<BeatIn> | Retimed(rs, bs) && Clocked(rs) :: NeverLate(m, s, rs))
            <==> |bs| == 0 || Ascending(s.pending + Scheduled(bs))
  {
    hide Scheduled, NeverLate, Clocked, Retimed;
    if |bs| == 0 {
      forall rs: seq<BeatIn> | Retimed(rs, bs)
        ensures NeverLate(m, s, rs)
      {
        NoBeats(m, s, rs, bs);
      }
    } else if Ascending(s.pending + Scheduled(bs)) {
      forall rs: seq<BeatIn> | Retimed(rs, bs)
        ensures NeverLate(m, s, rs)
      {
        RetimedScheduled(rs, bs);
        AscendingNeverLate(m, s, rs);
      }
    } else {
      var all := s.pending + Scheduled(bs);
      var i, j :| 0 <= i < j < |all| && all[i].sec > all[j].sec;
      var rs := LateSomewhere(m, s, bs, i, j);
    }
  }

  lemma NoBeats(m: Matcher, s: Sys, rs: seq<BeatIn>, bs: seq<BeatIn>)
    requires Retimed(rs, bs) && |bs| == 0
    ensures NeverLate(m, s, rs)
  {
  }
}
