/** A channel's prioritised values: a bit mask of live priorities and one byte for each. */
module Slots {
  import opened Bytes

  const PRIORITIES: nat := 32

  /** 1 << p */
  function Bit(p: nat): bv32
    requires p < 32
  {
    if p == 0 then 1 else Bit(p - 1) << 1
  }

  function Common(a: bv32, b: bv32): bv32 { a & b }

  predicate Meets(a: bv32, b: bv32) { Common(a, b) != 0 }

  function Halve(a: bv32): bv32 { a >> 1 }

  /** Priority `p` is live. */
  predicate Has(mask: bv32, p: nat)
    requires p < 32
  {
    Meets(mask, Bit(p))
  }

  // ---- bits ----

  lemma ShiftFacts(x: bv32, y: bv32)
    ensures (x << 1) & (y << 1) == (x & y) << 1
    ensures (x << 1) & 1 == 0
    ensures (0 as bv32) << 1 == 0
  {
  }

  lemma {:induction false} OneHot(p: nat, q: nat)
    requires p < q < 32
    ensures Bit(p) & Bit(q) == 0
  {
    if p > 0 {
      ShiftFacts(Bit(p - 1), Bit(q - 1));
      ShiftFacts(0, 0);
      OneHot(p - 1, q - 1);
    } else {
      ShiftFacts(Bit(q - 1), 0);
    }
  }

  lemma TopBit()
    ensures Bit(31) == 0x8000_0000
  {
    assert Bit(4) == 16 && Bit(8) == 0x100 && Bit(12) == 0x1000 && Bit(16) == 0x1_0000;
    assert Bit(20) == 0x10_0000 && Bit(24) == 0x100_0000 && Bit(28) == 0x1000_0000;
  }

  lemma ShiftBack(x: bv32)
    requires x & 0x8000_0000 == 0
    ensures (x << 1) >> 1 == x
    ensures x != 0 ==> x << 1 != 0
  {
  }

  lemma BitDown(p: nat)
    requires 0 < p < 32
    ensures Halve(Bit(p)) == Bit(p - 1)
  {
    TopBit();
    OneHot(p - 1, 31);
    ShiftBack(Bit(p - 1));
  }

  lemma {:induction false} BitNonZero(p: nat)
    requires p < 32
    ensures Bit(p) != 0
  {
    if p > 0 {
      BitNonZero(p - 1);
      TopBit();
      OneHot(p - 1, 31);
      ShiftBack(Bit(p - 1));
    }
  }

  function With(m: bv32, b: bv32): bv32 { m | b }

  function Without(m: bv32, b: bv32): bv32 { m & !b }

  lemma MeetsCommutes(b: bv32, c: bv32)
    ensures Meets(b, c) == Meets(c, b)
  {
  }

  lemma Disjoint(p: nat, q: nat)
    requires p < 32 && q < 32 && p != q
    ensures !Meets(Bit(p), Bit(q))
  {
    hide Bit;
    if p < q {
      OneHot(p, q);
    } else {
      OneHot(q, p);
      MeetsCommutes(Bit(p), Bit(q));
    }
  }

  lemma WithOther(m: bv32, b: bv32, c: bv32)
    requires Common(b, c) == 0
    ensures Common(With(m, b), c) == Common(m, c)
  {
  }

  lemma WithoutOther(m: bv32, b: bv32, c: bv32)
    requires Common(b, c) == 0
    ensures Common(Without(m, b), c) == Common(m, c)
  {
  }

  lemma SameBit(m: bv32, b: bv32)
    requires b != 0
    ensures Meets(With(m, b), b) && !Meets(Without(m, b), b)
  {
  }

  /** Setting a bit adds that priority, and clearing it removes it, leaving the others alone. */
  lemma SetAndClear(m: bv32, p: nat, q: nat)
    requires p < 32 && q < 32
    ensures Has(With(m, Bit(p)), q) <==> q == p || Has(m, q)
    ensures Has(Without(m, Bit(p)), q) <==> q != p && Has(m, q)
  {
    hide Bit, Common, With, Without;
    if q == p {
      BitNonZero(p);
      SameBit(m, Bit(p));
    } else {
      Disjoint(p, q);
      WithOther(m, Bit(p), Bit(q));
      WithoutOther(m, Bit(p), Bit(q));
    }
  }

  function Low(k: nat): bv32
    requires k <= 32
  {
    if k == 0 then 0 else Low(k - 1) | Bit(k - 1)
  }

  lemma AndOr(m: bv32, a: bv32, b: bv32)
    requires m & a == 0 && m & b == 0
    ensures m & (a | b) == 0
  {
  }

  lemma {:induction false} NoLowBits(m: bv32, k: nat)
    requires k <= 32 && forall p: nat | p < k :: !Has(m, p)
    ensures m & Low(k) == 0
  {
    if k == 0 {
      assert m & 0 == 0;
    } else {
      NoLowBits(m, k - 1);
      assert !Has(m, k - 1);
      AndOr(m, Low(k - 1), Bit(k - 1));
    }
  }

  lemma AllLow()
    ensures Low(32) == 0xFFFF_FFFF
  {
    assert Bit(3) == 8 && Bit(7) == 0x80 && Bit(11) == 0x800 && Bit(15) == 0x8000;
    assert Bit(19) == 0x8_0000 && Bit(23) == 0x80_0000 && Bit(27) == 0x800_0000;
    assert Low(4) == 0xF;
    assert Low(8) == 0xFF;
    assert Low(12) == 0xFFF;
    assert Low(16) == 0xFFFF;
    assert Low(20) == 0xF_FFFF;
    assert Low(24) == 0xFF_FFFF;
    assert Low(28) == 0xFFF_FFFF;
  }

  /** A mask without a live priority is zero. */
  lemma EmptyMask(m: bv32)
    ensures m == 0 <==> forall p: nat | p < 32 :: !Has(m, p)
  {
    if forall p: nat | p < 32 :: !Has(m, p) {
      NoLowBits(m, 32);
      AllLow();
      assert m & 0xFFFF_FFFF == m;
    }
  }

  // ---- slots ----

  /** What a channel shows: the value at its greatest live priority, or 0 if none is live. */
  ghost predicate Shows(live: map<nat, byte>, v: byte) {
    if live == map[] then v == 0
    else exists p | p in live :: live[p] == v && forall q | q in live :: q <= p
  }

  // ---- histories ----

  datatype Op = SetOp(prio: nat, val: byte) | ClrOp(prio: nat)

  /** The live priorities after a history of operations on a slot that started empty. */
  function Replay(ops: seq<Op>): map<nat, byte> {
    if |ops| == 0 then map[]
    else
      var before := Replay(ops[..|ops| - 1]);
      match ops[|ops| - 1]
      case SetOp(p, v) => before[p := v]
      case ClrOp(p) => before - {p}
  }

  /** The last operation on `p` in the history, if any. */
  ghost predicate LastOn(ops: seq<Op>, i: nat, p: nat) {
    i < |ops| && ops[i].prio == p && forall j | i < j < |ops| :: ops[j].prio != p
  }

  /** A priority is live exactly when the last operation on it set it, and holds the value set then. */
  lemma {:induction false} LastOperationWins(ops: seq<Op>, p: nat)
    ensures p in Replay(ops) <==> exists i: nat :: LastOn(ops, i, p) && ops[i].SetOp?
    ensures forall i: nat | LastOn(ops, i, p) && ops[i].SetOp? :: p in Replay(ops) && Replay(ops)[p] == ops[i].val
  {
    if |ops| > 0 {
      var n := |ops| - 1;
      var before := ops[..n];
      LastOperationWins(before, p);
      if ops[n].prio == p {
        assert LastOn(ops, n, p);
      } else {
        forall i: nat
          ensures LastOn(ops, i, p) <==> LastOn(before, i, p)
        {
          if LastOn(before, i, p) { assert ops[i] == before[i]; }
        }
        if p in Replay(ops) {
          var i: nat :| LastOn(before, i, p) && before[i].SetOp?;
          assert LastOn(ops, i, p) && ops[i] == before[i];
        }
      }
    }
  }

  /** The operation at `i` decides what the slot shows: it set a priority that nothing changed since, and
      every greater priority was cleared last or never touched. */
  ghost predicate Decides(ops: seq<Op>, i: nat) {
    && i < |ops| && ops[i].SetOp? && LastOn(ops, i, ops[i].prio)
    && forall j: nat | j < |ops| && ops[j].SetOp? && LastOn(ops, j, ops[j].prio) :: ops[j].prio <= ops[i].prio
  }

  /** The value shown after a history is the one last set on the greatest live priority; without a live
      priority it is 0. */
  lemma ShownAfter(ops: seq<Op>, v: byte)
    requires Shows(Replay(ops), v)
    ensures forall i: nat | Decides(ops, i) :: v == ops[i].val
    ensures (forall i: nat :: !Decides(ops, i)) ==> v == 0
  {
    hide Replay;
    var live := Replay(ops);
    forall i: nat | Decides(ops, i)
      ensures v == ops[i].val
    {
      LastOperationWins(ops, ops[i].prio);
      var p :| p in live && live[p] == v && forall q | q in live :: q <= p;
      var k := SetBy(ops, p);
    }
    if live != map[] {
      var p :| p in live && live[p] == v && forall q | q in live :: q <= p;
      var i := SetBy(ops, p);
      forall j: nat | j < |ops| && ops[j].SetOp? && LastOn(ops, j, ops[j].prio)
        ensures ops[j].prio <= p
      {
        LastOperationWins(ops, ops[j].prio);
      }
      assert Decides(ops, i);
    }
  }

  lemma SetBy(ops: seq<Op>, p: nat) returns (i: nat)
    requires p in Replay(ops)
    ensures LastOn(ops, i, p) && ops[i] == SetOp(p, Replay(ops)[p])
  {
    hide Replay;
    LastOperationWins(ops, p);
    i :| LastOn(ops, i, p) && ops[i].SetOp?;
  }

  class Slot {
    var mask: bv32
    const data: array<byte>

    /** Entries that are not live hold 0. */
    ghost predicate Valid()
      reads this, data
    {
      data.Length == PRIORITIES && forall p | 0 <= p < 32 :: !Has(mask, p) ==> data[p] == 0
    }

    ghost function Live(): (m: map<nat, byte>)
      requires data.Length == PRIORITIES
      reads this, data
      ensures forall p | p in m :: p < PRIORITIES
    {
      map p: nat | p < 32 && Has(mask, p) :: data[p]
    }

    constructor ()
      ensures Valid() && fresh(data) && Live() == map[]
    {
      mask := 0;
      data := new byte[PRIORITIES](_ => 0);
      new;
      EmptyMask(0);
    }

    method SetVal(prio: nat, val: byte)
      requires Valid() && prio < 32
      modifies this`mask, data
      ensures Valid() && Live() == old(Live())[prio := val]
    {
      hide Bit, Has, With, Without;
      ghost var was := mask;
      mask := With(mask, Bit(prio));
      data[prio] := val;
      forall q: nat | q < 32
        ensures Has(mask, q) <==> q == prio || Has(was, q)
      {
        SetAndClear(was, prio, q);
      }
    }

    method ClrVal(prio: nat)
      requires Valid() && prio < 32
      modifies this`mask, data
      ensures Valid() && Live() == old(Live()) - {prio}
    {
      hide Bit, Has, With, Without;
      ghost var was := mask;
      mask := Without(mask, Bit(prio));
      data[prio] := 0;
      forall q: nat | q < 32
        ensures Has(mask, q) <==> q != prio && Has(was, q)
      {
        SetAndClear(was, prio, q);
      }
    }

    method HasVal() returns (r: bool)
      requires Valid()
      ensures r <==> Live() != map[]
    {
      EmptyMask(mask);
      NoneLive();
      r := mask != 0;
    }

    lemma NoneLive()
      requires Valid()
      ensures Live() == map[] <==> forall p: nat | p < 32 :: !Has(mask, p)
    {
      hide Has;
      if p: nat :| p < 32 && Has(mask, p) {
        assert p in Live();
      }
    }

    /** The scan from the greatest priority down. */
    method GetVal() returns (v: byte)
      requires Valid()
      ensures Shows(Live(), v)
    {
      hide Bit, Common, Halve;
      NoneLive();
      var has := HasVal();
      if has {
        TopBit();
        var m: bv32 := 0x8000_0000;
        for j := 0 to 32
          invariant j < 32 ==> m == Bit(31 - j)
          invariant forall q: nat | 31 - j < q < 32 :: !Has(mask, q)
        {
          if Meets(mask, m) {
            var prio := 32 - 1 - j;
            assert prio in Live() && forall q | q in Live() :: q <= prio;
            return data[prio];
          }
          if j < 31 { BitDown(31 - j); }
          m := Halve(m);
        }
      }
      return 0;
    }

    /** slot_set_val or slot_clr_val. */
    method Perform(op: Op)
      requires Valid() && op.prio < 32
      modifies this`mask, data
      ensures Valid()
      ensures Live() == match op case SetOp(p, v) => old(Live())[p := v] case ClrOp(p) => old(Live()) - {p}
    {
      match op
      case SetOp(p, v) => SetVal(p, v);
      case ClrOp(p) => ClrVal(p);
    }
  }

  /** Any history of operations on a new slot: its mask and bytes stand for the replayed history, and it
      shows the value last set on the greatest live priority. */
  method History(ops: seq<Op>) returns (slot: Slot, v: byte)
    requires forall i | 0 <= i < |ops| :: ops[i].prio < 32
    ensures fresh(slot) && fresh(slot.data) && slot.Valid() && slot.Live() == Replay(ops)
    ensures forall p | 0 <= p < 32 && p !in Replay(ops) :: slot.data[p] == 0
    ensures forall i: nat | Decides(ops, i) :: v == ops[i].val
    ensures (forall i: nat :: !Decides(ops, i)) ==> v == 0
  {
    hide Decides, LastOn, Has, Bit, Shows;
    slot := new Slot();
    for i := 0 to |ops|
      invariant fresh(slot) && fresh(slot.data) && slot.Valid() && slot.Live() == Replay(ops[..i])
    {
      assert ops[..i + 1][..i] == ops[..i];
      slot.Perform(ops[i]);
    }
    assert ops[..|ops|] == ops;
    v := slot.GetVal();
    ShownAfter(ops, v);
  }
}
