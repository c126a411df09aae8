/** The SLIP branch of the stream's receive loop, feeding whole packets into the ring. */
module Stream {
  import opened Bytes
  import opened RingLayout
  import opened Ring
  import opened Slip
  import opened SlipInline

  class Receiver {
    const rxBuf: array<byte>
    var rxOff: nat

    ghost predicate Valid()
      reads this
    {
      rxBuf.Length == 0x4000 && rxOff <= rxBuf.Length
    }

    constructor ()
      ensures Valid() && rxOff == 0 && fresh(rxBuf) && rxBuf.Length == 0x4000
    {
      rxBuf := new byte[0x4000];
      rxOff := 0;
    }

    /** Handle the `recvd` bytes that were just received behind the remainder of the last call: every whole
        packet goes to the ring, until the ring refuses one. */
    method Receive(recvd: nat, ring: Varchunk) returns (delivered: nat, refused: bool)
      requires Valid() && rxOff + recvd <= rxBuf.Length
      requires ring.Valid() && ring.buf != rxBuf
      modifies this`rxOff, rxBuf
      modifies ring`rsvd, ring`gapd, ring`head, ring`queue, ring.buf
      ensures Valid() && ring.Valid()
      ensures var split := old(Split(rxBuf[..rxOff + recvd]));
              && delivered == Taken(ring.size, old(ring.head), ring.tail, Sizes(split.0))
              && ring.head == HeadAfter(ring.size, old(ring.head), ring.tail, Sizes(split.0))
              && delivered <= |split.0|
              && ring.Contents() == old(ring.Contents()) + split.0[..delivered]
              && (refused ==>
                    && delivered < |split.0|
                    && Refuses(ring, |split.0[delivered]|))
              && (!refused ==> delivered == |split.0| && rxOff == old(rxOff) + recvd - split.1)
      ensures var s := old(rxBuf[..rxOff + recvd]);
              rxBuf[..rxOff] == Left(s[Parsed(s, delivered)..])
    {
      hide Split, Decode, Left, Parsed, Accounts, Settled, Taken, HeadAfter, Sizes;
      hide Publishes, Refuses, Varchunk.Valid, Varchunk.Contents;
      ring.Indices();
      var ptr: nat := 0;
      var left: nat := rxOff + recvd;
      ghost var s := rxBuf[..left];
      ghost var done: seq<seq<byte>> := [];
      AccountsStart(ring, s);
      delivered, refused := 0, false;
      while left > 0
        invariant Valid() && ring.Valid()
        invariant ptr + left == |s| == old(rxOff) + recvd && !refused
        invariant forall i | ptr <= i < |s| :: rxBuf[i] == s[i]
        invariant delivered == |done|
        invariant ring.Contents() == old(ring.Contents()) + done
        invariant Accounts(ring.size, ring.tail, old(ring.head), ring.head, s, done, ptr)
      {
        assert rxBuf[ptr..ptr + left] == s[ptr..];
        ghost var head := ring.head;
        ghost var packet := Decode(s[ptr..]).1;
        var parsed, got;
        parsed, got, refused := Turn(ptr, left, ring);
        AccountsTurn(ring, old(ring.head), head, s, done, ptr);
        if got {
          done := done + [packet];
          delivered := delivered + 1;
        }
        if parsed > 0 {
          ptr := ptr + parsed;
          left := left - parsed;
        } else {
          break;
        }
      }
      if left == 0 { AccountsAll(ring, old(ring.head), s, done); }
      SettledMeans(ring, old(ring.head), s, done, ptr);
      if left > 0 {
        KeepRemainder(ptr, left);
      } else {
        rxOff := 0;
      }
    }

    /** One turn of the loop: decode one frame and, if it held a packet, dispatch it. */
    method Turn(ptr: nat, left: nat, ring: Varchunk) returns (parsed: nat, got: bool, refused: bool)
      requires Valid() && ring.Valid() && ring.buf != rxBuf
      requires ptr + left <= rxBuf.Length
      modifies rxBuf
      modifies ring`rsvd, ring`gapd, ring`head, ring`queue, ring.buf
      ensures ring.Valid() && parsed <= left
      ensures var (n, p) := old(Decode(rxBuf[ptr..ptr + left]));
              && got == (|p| > 0 && !refused)
              && (refused ==> |p| > 0 && Refuses(ring, |p|))
              && parsed == (if refused then 0 else n)
              && ring.Contents() == old(ring.Contents()) + (if got then [p] else [])
              && (if got then Publishes(ring, old(ring.head), |p|) else ring.head == old(ring.head))
      ensures rxBuf[ptr..ptr + left] == old(Left(rxBuf[ptr..ptr + left]))
      ensures parsed > 0 ==> forall i | ptr + parsed <= i < ptr + left :: rxBuf[i] == old(rxBuf[i])
    {
      hide Split, Decode, Left, Reserve, NextHead, Consistent, Payloads, Pow2;
      got, refused := false, false;
      var size;
      parsed, size := DecodeInline(rxBuf, ptr, left);
      if size > 0 {
        got := Deliver(ptr, size, ring);
        if !got {
          parsed, refused := 0, true;
        }
      }
    }

    /** Reserve, copy and publish one packet. */
    method Deliver(ptr: nat, size: nat, ring: Varchunk) returns (ok: bool)
      requires Valid() && ring.Valid() && ring.buf != rxBuf
      requires ptr + size <= rxBuf.Length
      modifies ring`rsvd, ring`gapd, ring`head, ring`queue, ring.buf
      ensures ring.Valid()
      ensures ok ==> ring.Contents() == old(ring.Contents()) + [rxBuf[ptr..ptr + size]]
      ensures ok ==> Publishes(ring, old(ring.head), size)
      ensures !ok ==> ring.Contents() == old(ring.Contents()) && ring.head == old(ring.head)
                      && Refuses(ring, size)
    {
      hide Reserve, Consistent, Payloads, Pow2, Total, Claim;
      var at, _ := ring.WriteRequestMax(size);
      ok := at.Some?;
      if ok {
        ring.Fill(at.value, rxBuf[ptr..ptr + size]);
        ring.WriteAdvance(size);
      }
    }

    /** The head went from `head` over one chunk of `n` bytes. */
    static ghost predicate Publishes(ring: Varchunk, head: nat, n: nat)
      reads ring
    {
      && head < ring.size && ring.tail < ring.size
      && Reserve(ring.size, head, ring.tail, n).Granted? && ring.head == NextHead(ring.size, head, ring.tail, n)
    }

    /** The ring has no room for a chunk of `n` bytes. */
    static ghost predicate Refuses(ring: Varchunk, n: nat)
      reads ring
    {
      && ring.head < ring.size && ring.tail < ring.size
      && Reserve(ring.size, ring.head, ring.tail, n).Refused?
    }

    /** `done` and `ptr` account for everything in `s` ahead of `ptr`, the ring's head having gone from `head0`
        to `head` meanwhile. */
    static ghost predicate Accounts(size: nat, tail: nat, head0: nat, head: nat, s: seq<byte>,
                                    done: seq<seq<byte>>, ptr: nat)
    {
      && ptr <= |s| && head0 < size && head < size && tail < size
      && var rest := Split(s[ptr..]);
      && Split(s) == (done + rest.0, ptr + rest.1)
      && Taken(size, head0, tail, Sizes(Split(s).0)) == |done| + Taken(size, head, tail, Sizes(rest.0))
      && HeadAfter(size, head0, tail, Sizes(Split(s).0)) == HeadAfter(size, head, tail, Sizes(rest.0))
      && AllShifted(s, |done|, ptr)
    }

    static ghost predicate AllShifted(s: seq<byte>, d: nat, ptr: nat)
      requires ptr <= |s|
    {
      forall k: nat :: Shifted(s, d, ptr, k)
    }

    /** The packet `k` places behind the `d`-th begins as many bytes behind `ptr` as it does in what is left. */
    static predicate Shifted(s: seq<byte>, d: nat, ptr: nat, k: nat)
      requires ptr <= |s|
    {
      Parsed(s, d + k) == ptr + Parsed(s[ptr..], k)
    }

    /** Nothing more of `s` will be delivered than `done`. */
    static ghost predicate Settled(ring: Varchunk, head0: nat, s: seq<byte>, done: seq<seq<byte>>, ptr: nat)
      reads ring
    {
      && head0 < ring.size && ring.tail < ring.size
      && var packets := Split(s).0;
      && done <= packets && ptr == Parsed(s, |done|)
      && Taken(ring.size, head0, ring.tail, Sizes(packets)) == |done|
      && HeadAfter(ring.size, head0, ring.tail, Sizes(packets)) == ring.head
    }

    static lemma SettledMeans(ring: Varchunk, head0: nat, s: seq<byte>, done: seq<seq<byte>>, ptr: nat)
      requires Settled(ring, head0, s, done, ptr)
      ensures head0 < ring.size && ring.tail < ring.size
      ensures done <= Split(s).0 && ptr == Parsed(s, |done|)
      ensures Taken(ring.size, head0, ring.tail, Sizes(Split(s).0)) == |done|
      ensures HeadAfter(ring.size, head0, ring.tail, Sizes(Split(s).0)) == ring.head
      ensures |done| == |Split(s).0| ==> ptr == Split(s).1
    {
      ParsedAll(s);
    }

    static lemma AccountsStart(ring: Varchunk, s: seq<byte>)
      requires ring.head < ring.size && ring.tail < ring.size
      ensures Accounts(ring.size, ring.tail, ring.head, ring.head, s, [], 0)
    {
      hide Split, Parsed, Taken, HeadAfter;
      assert s[0..] == s && [] + Split(s).0 == Split(s).0;
    }

    static lemma AccountsAll(ring: Varchunk, head0: nat, s: seq<byte>, done: seq<seq<byte>>)
      requires Accounts(ring.size, ring.tail, head0, ring.head, s, done, |s|)
      ensures Settled(ring, head0, s, done, |s|) && done == Split(s).0
    {
      hide Decode;
      var rest := s[|s|..];
      assert Split(rest) == ([], 0) && Parsed(rest, 0) == 0;
      assert done + [] == done && Sizes([]) == [];
      assert Shifted(s, |done|, |s|, 0);
    }

    /** One turn, as seen from the ring after it. */
    static lemma AccountsTurn(ring: Varchunk, head0: nat, head: nat, s: seq<byte>, done: seq<seq<byte>>, ptr: nat)
      requires Accounts(ring.size, ring.tail, head0, head, s, done, ptr)
      ensures ptr <= |s|
      ensures var (n, p) := Decode(s[ptr..]);
              && (n == 0 && ring.head == head ==> Settled(ring, head0, s, done, ptr) && done == Split(s).0)
              && (n > 0 && |p| == 0 && ring.head == head ==>
                    Accounts(ring.size, ring.tail, head0, ring.head, s, done, ptr + n))
              && (n > 0 && |p| > 0 && Publishes(ring, head, |p|) ==>
                    Accounts(ring.size, ring.tail, head0, ring.head, s, done + [p], ptr + n))
              && (n > 0 && |p| > 0 && ring.head == head && Refuses(ring, |p|) ==>
                    && Settled(ring, head0, s, done, ptr)
                    && |done| < |Split(s).0| && Split(s).0[|done|] == p)
    {
      hide Decode, Split, Parsed, Reserve, NextHead, AllShifted;
      var (n, p) := Decode(s[ptr..]);
      SplitTurn(s, ptr);
      ShiftedTurn(s, |done|, ptr);
      if n == 0 {
        assert done + [] == done;
      } else if |p| > 0 {
        var after := Split(s[ptr + n..]).0;
        assert Sizes([p] + after)[1..] == Sizes(after);
        assert done + ([p] + after) == done + [p] + after;
      }
    }

    static lemma ShiftedTurn(s: seq<byte>, d: nat, ptr: nat)
      requires ptr <= |s| && AllShifted(s, d, ptr)
      ensures var (n, p) := Decode(s[ptr..]);
              && (n == 0 || |p| > 0 ==> Parsed(s, d) == ptr)
              && (n > 0 && |p| == 0 ==> AllShifted(s, d, ptr + n))
              && (n > 0 && |p| > 0 ==> AllShifted(s, d + 1, ptr + n))
    {
      hide Decode, Parsed;
      var (n, p) := Decode(s[ptr..]);
      ParsedTurn(s, ptr, 0);
      assert Shifted(s, d, ptr, 0);
      if n > 0 {
        var e, q := if |p| > 0 then d + 1 else d, ptr + n;
        forall k: nat
          ensures Shifted(s, e, q, k)
        {
          ParsedTurn(s, ptr, k);
          assert Shifted(s, d, ptr, if |p| > 0 then k + 1 else k);
        }
      }
    }

    static lemma ParsedTurn(s: seq<byte>, ptr: nat, k: nat)
      requires ptr <= |s|
      ensures var (n, p) := Decode(s[ptr..]);
              && (n == 0 || |p| > 0 ==> Parsed(s[ptr..], 0) == 0)
              && (n > 0 && |p| == 0 ==> Parsed(s[ptr..], k) == n + Parsed(s[ptr + n..], k))
              && (n > 0 && |p| > 0 ==> Parsed(s[ptr..], k + 1) == n + Parsed(s[ptr + n..], k))
    {
      hide Decode;
      var (n, p) := Decode(s[ptr..]);
      if n > 0 { assert s[ptr..][n..] == s[ptr + n..]; }
    }

    /** One turn's part of what a buffer splits into. */
    static lemma SplitTurn(s: seq<byte>, ptr: nat)
      requires ptr <= |s|
      ensures var (n, p) := Decode(s[ptr..]);
              var (packets, used) := Split(s[ptr..]);
              && (n == 0 ==> packets == [] && used == 0)
              && (n > 0 ==> used == n + Split(s[ptr + n..]).1)
              && (n > 0 && |p| == 0 ==> packets == Split(s[ptr + n..]).0)
              && (n > 0 && |p| > 0 ==> packets == [p] + Split(s[ptr + n..]).0)
    {
      hide Decode;
      var (n, p) := Decode(s[ptr..]);
      if n > 0 { assert s[ptr..][n..] == s[ptr + n..]; }
    }

    /** Move what was not parsed to the front for the next call. */
    method KeepRemainder(ptr: nat, left: nat)
      requires Valid() && ptr + left <= rxBuf.Length
      modifies this`rxOff, rxBuf
      ensures Valid() && rxOff == left && rxBuf[..left] == old(rxBuf[ptr..ptr + left])
    {
      forall i | 0 <= i < left {
        rxBuf[i] := rxBuf[ptr + i];
      }
      rxOff := left;
    }
  }
}
