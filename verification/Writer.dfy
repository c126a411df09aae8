/** The OSC writer: a cursor over a byte buffer, with back-patched item sizes. */
module Writer {
  import opened Bytes
  import opened Osc

  class OscWriter {
    const buf: array<byte>
    const end: nat
    var ptr: nat

    ghost predicate Valid()
      reads this
    {
      ptr <= end <= buf.Length && end < 0x8000_0000
    }

    constructor (buf: array<byte>, size: nat)
      requires size <= buf.Length && size < 0x8000_0000
      ensures Valid() && this.buf == buf && end == size && ptr == 0
    {
      this.buf := buf;
      end := size;
      ptr := 0;
    }

    predicate Overflow(size: nat)
      reads this
    {
      ptr + size >= end
    }

    /** Everything written so far is kept, and nothing is written behind the end. */
    twostate predicate Keeps(n: nat)
      requires n <= buf.Length
      reads buf
    {
      forall i | 0 <= i < n || end <= i < buf.Length :: buf[i] == old(buf[i])
    }

    /** Nothing is written at or behind the cursor. */
    twostate predicate Ahead()
      reads this, buf
    {
      forall i | ptr <= i < buf.Length :: buf[i] == old(buf[i])
    }

    method PutWord(at: nat, v: u32)
      requires at + 4 <= buf.Length
      modifies buf
      ensures U32At(buf[..], at) == v
      ensures forall i | 0 <= i < buf.Length && !(at <= i < at + 4) :: buf[i] == old(buf[i])
    {
      var s := U32Bytes(v);
      buf[at], buf[at + 1], buf[at + 2], buf[at + 3] := s[0], s[1], s[2], s[3];
      assert buf[..][at..at + 4] == s;
      U32RoundTrip(buf[..], at, v);
    }

    method PutBytes(at: nat, s: seq<byte>)
      requires at + |s| <= buf.Length
      modifies buf
      ensures Holds(buf[..], at, s)
      ensures forall i | 0 <= i < buf.Length && !(at <= i < at + |s|) :: buf[i] == old(buf[i])
    {
      forall i | 0 <= i < |s| {
        buf[at + i] := s[i];
      }
    }

    method HtoBe32(u: u32) returns (ok: bool)
      requires Valid()
      modifies this`ptr, buf
      ensures Valid() && Keeps(old(ptr)) && Ahead()
      ensures ok == (old(ptr) + 4 < end)
      ensures ptr == old(ptr) + if ok then 4 else 0
      ensures ok ==> U32At(buf[..], old(ptr)) == u
    {
      if Overflow(4) { return false; }
      PutWord(ptr, u);
      ptr := ptr + 4;
      return true;
    }

    method HtoBe64(u: u64) returns (ok: bool)
      requires Valid()
      modifies this`ptr, buf
      ensures Valid() && Keeps(old(ptr)) && Ahead()
      ensures ok == (old(ptr) + 8 < end)
      ensures ptr == old(ptr) + if ok then 8 else 0
      ensures ok ==> U64At(buf[..], old(ptr)) == u
    {
      if Overflow(8) { return false; }
      PutBytes(ptr, U64Bytes(u));
      assert buf[..][ptr..ptr + 8] == U64Bytes(u);
      U64RoundTrip(buf[..], ptr, u);
      ptr := ptr + 8;
      return true;
    }

    /** A string with its NUL, the last word blanked first so that every pad byte is zero. */
    method AddString(s: seq<byte>) returns (ok: bool)
      requires Valid()
      modifies this`ptr, buf
      ensures Valid() && Keeps(old(ptr)) && Ahead()
      ensures ok == (old(ptr) + StrSize(s) < end)
      ensures ptr == old(ptr) + if ok then StrSize(s) else 0
      ensures ok ==> StrAt(buf[..], old(ptr), s)
    {
      var padded := Pad4(|s| + 1);
      if Overflow(padded) { return false; }
      PutBytes(ptr + padded - 4, [0, 0, 0, 0]);
      ZeroTail(ptr + padded - 4);
      PutBytes(ptr, s + [0]);
      assert forall k | 0 <= k < |s| :: (s + [0])[k] == s[k];
      assert (s + [0])[|s|] == 0;
      ptr := ptr + padded;
      return true;
    }

    lemma ZeroTail(p: nat)
      requires Holds(buf[..], p, [0, 0, 0, 0])
      ensures buf[p] == 0 && buf[p + 1] == 0 && buf[p + 2] == 0 && buf[p + 3] == 0
    {
      var z: seq<byte> := [0, 0, 0, 0];
      assert buf[..][p + 0] == z[0] && buf[..][p + 1] == z[1] && buf[..][p + 2] == z[2] && buf[..][p + 3] == z[3];
    }

    /** The format, a comma and the type characters. */
    method AddFormat(fmt: seq<byte>) returns (ok: bool)
      requires Valid()
      modifies this`ptr, buf
      ensures Valid() && Keeps(old(ptr)) && Ahead()
      ensures ok == (old(ptr) + StrSize([COMMA] + fmt) < end)
      ensures ptr == old(ptr) + if ok then StrSize([COMMA] + fmt) else 0
      ensures ok ==> StrAt(buf[..], old(ptr), [COMMA] + fmt)
    {
      var rawlen := |fmt| + 1;
      var padded := Pad4(rawlen + 1);
      if Overflow(padded) { return false; }
      PutBytes(ptr + padded - 4, [0, 0, 0, 0]);
      ZeroTail(ptr + padded - 4);
      buf[ptr] := COMMA;
      ptr := ptr + 1;
      PutBytes(ptr, fmt + [0]);
      FormatAt(buf[..], ptr - 1, fmt);
      ptr := ptr + padded - 1;
      return true;
    }

    static lemma FormatAt(b: seq<byte>, p: nat, fmt: seq<byte>)
      requires p + StrSize([COMMA] + fmt) <= |b|
      requires b[p] == COMMA && Holds(b, p + 1, fmt + [0])
      requires forall i | p + |fmt| + 2 <= i < p + StrSize([COMMA] + fmt) :: b[i] == 0
      ensures StrAt(b, p, [COMMA] + fmt)
    {
      var f := [COMMA] + fmt;
      assert (fmt + [0])[|fmt|] == 0;
      forall k | 0 <= k < |f|
        ensures b[p + k] == f[k]
      {
        if k > 0 { assert (fmt + [0])[k - 1] == f[k]; }
      }
    }

    /** A blob: its length, its bytes, and padding that keeps whatever the buffer held. */
    method AddBlob(b: seq<byte>) returns (ok: bool)
      requires Valid() && |b| < 0x8000_0000
      modifies this`ptr, buf
      ensures Valid() && Keeps(old(ptr)) && Ahead()
      ensures ok == (old(ptr) + 4 + Pad4(|b|) < end)
      ensures ptr == old(ptr) + if ok then 4 + Pad4(|b|) else 0
      ensures ok ==> U32At(buf[..], old(ptr)) == |b| && Holds(buf[..], old(ptr) + 4, b)
    {
      var padded := Pad4(|b|);
      if Overflow(4 + padded) { return false; }
      ok := HtoBe32(|b|);
      ghost var before := buf[..];
      PutBytes(ptr, b);
      assert Same(before, old(ptr), buf[..], old(ptr), 4);
      WordFrame(before, old(ptr), buf[..], old(ptr));
      ptr := ptr + padded;
    }

    /** Up to four bytes of MIDI data in one word. */
    method AddMidi(m: seq<byte>) returns (ok: bool)
      requires Valid()
      modifies this`ptr, buf
      ensures Valid() && Keeps(old(ptr)) && Ahead()
      ensures ok == (|m| <= 4 && old(ptr) + 4 < end)
      ensures ptr == old(ptr) + if ok then 4 else 0
      ensures ok ==> Holds(buf[..], old(ptr), m)
    {
      if |m| > 4 || Overflow(4) { return false; }
      PutBytes(ptr, m);
      ptr := ptr + 4;
      return true;
    }

    method AddRgba(r: byte, g: byte, b: byte, a: byte) returns (ok: bool)
      requires Valid()
      modifies this`ptr, buf
      ensures Valid() && Keeps(old(ptr)) && Ahead()
      ensures ok == (old(ptr) + 4 < end)
      ensures ptr == old(ptr) + if ok then 4 else 0
      ensures ok ==> ArgAt(buf[..], old(ptr), Rgba(r, g, b, a))
    {
      if Overflow(4) { return false; }
      buf[ptr] := r;
      buf[ptr + 1] := g;
      buf[ptr + 2] := b;
      buf[ptr + 3] := a;
      ptr := ptr + 4;
      return true;
    }

    /** One turn of the switch over the type characters. */
    method AddArg(t: byte, a: Arg) returns (ok: bool)
      requires Valid() && ptr < end
      requires t == TypeOf(a) && ArgOk(a)
      modifies this`ptr, buf
      ensures Valid() && Keeps(old(ptr)) && Ahead()
      ensures ok == (MidiFits(a) && old(ptr) + ArgSize(a) < end)
      ensures ok ==> ptr == old(ptr) + ArgSize(a) && ArgAt(buf[..], old(ptr), a)
    {
      match a
      case Int32(i) => ok := HtoBe32(U32Of(i));
      case Float(f) => ok := HtoBe32(f);
      case Str(s) => ok := AddString(s);
      case Blob(b) => ok := AddBlob(b);
      case True => ok := true;
      case False => ok := true;
      case Nil => ok := true;
      case Impulse => ok := true;
      case Int64(h) => ok := HtoBe64(U64Of(h));
      case Double(d) => ok := HtoBe64(d);
      case Timetag(u) => ok := HtoBe64(u);
      case Midi(m) => ok := AddMidi(m);
      case Symbol(y) => ok := AddString(y);
      case Char(c) => ok := HtoBe32(U32Of(c));
      case Rgba(r, g, b, al) => ok := AddRgba(r, g, b, al);
    }

    /** All arguments, in the order of the type characters. */
    method ArgVarlist(fmt: seq<byte>, args: seq<Arg>) returns (ok: bool)
      requires Valid() && ptr < end
      requires fmt == Types(args) && forall k | 0 <= k < |args| :: ArgOk(args[k])
      modifies this`ptr, buf
      ensures Valid() && Keeps(old(ptr)) && (ok ==> Ahead())
      ensures ok == (AllMidiFit(args) && old(ptr) + ArgsSize(args) < end)
      ensures ok ==> ptr == old(ptr) + ArgsSize(args) && ArgsAt(buf[..], old(ptr), args)
    {
      hide ArgAt, ArgSize, ArgOk, ArgsAt, ArgsSize;
      ghost var p := ptr;
      assert args[..0] == [] && args[..|args|] == args;
      EmptyArgs(buf[..], p);
      for k := 0 to |fmt|
        invariant Valid() && Keeps(p) && Ahead()
        invariant AllMidiFit(args[..k])
        invariant ptr == p + ArgsSize(args[..k]) < end
        invariant ArgsAt(buf[..], p, args[..k])
      {
        ghost var before := buf[..];
        ArgsSplit(args, k);
        ok := AddArg(fmt[k], args[k]);
        if !ok {
          assert !MidiFits(args[k]) || p + ArgsSize(args) >= end;
          return false;
        }
        assert Same(before, p, buf[..], p, ArgsSize(args[..k]));
        ArgsFrame(before, p, buf[..], p, args[..k]);
        ArgsSnoc(buf[..], p, args, k);
      }
      ok := true;
    }

    static lemma EmptyArgs(b: seq<byte>, p: nat)
      ensures ArgsAt(b, p, []) && ArgsSize([]) == 0
    {
    }

    static lemma ArgsSplit(args: seq<Arg>, k: nat)
      requires k < |args|
      ensures ArgsSize(args[..k + 1]) == ArgsSize(args[..k]) + ArgSize(args[k]) <= ArgsSize(args)
    {
      hide ArgSize;
      assert args == args[..k + 1] + args[k + 1..] && args[..k + 1] == args[..k] + [args[k]];
      ArgsSizeAppend(args[..k + 1], args[k + 1..]);
      ArgsSizeAppend(args[..k], [args[k]]);
      OneArg(args[k]);
    }

    static lemma ArgsSnoc(b: seq<byte>, p: nat, args: seq<Arg>, k: nat)
      requires k < |args| && ArgsAt(b, p, args[..k]) && ArgAt(b, p + ArgsSize(args[..k]), args[k])
      ensures ArgsAt(b, p, args[..k + 1])
    {
      hide ArgAt;
      assert args[..k + 1] == args[..k] + [args[k]];
      assert [args[k]][1..] == [];
      ArgsAtAppend(b, p, args[..k], [args[k]]);
    }

    /** A whole message; it succeeds exactly when it ends before the buffer does. */
    method MessageVarlist(m: Message) returns (ok: bool)
      requires Valid() && MessageOk(m)
      modifies this`ptr, buf
      ensures Valid() && Keeps(old(ptr)) && (ok ==> Ahead())
      ensures ok == (AllMidiFit(m.args) && old(ptr) + MsgSize(m) < end)
      ensures ok ==> ptr == old(ptr) + MsgSize(m) && MsgAt(buf[..], old(ptr), m)
    {
      hide StrAt, StrSize, ArgsAt, ArgsSize, ArgOk, CString;
      ghost var p := ptr;
      ok := AddString(m.path);
      if !ok { return; }
      ghost var b1 := buf[..];
      ok := AddFormat(Types(m.args));
      if !ok { return; }
      ghost var b2 := buf[..];
      ok := ArgVarlist(Types(m.args), m.args);
      if !ok { return; }
      assert Same(b1, p, buf[..], p, StrSize(m.path));
      StrFrame(b1, p, buf[..], p, m.path);
      assert Same(b2, p + StrSize(m.path), buf[..], p + StrSize(m.path), StrSize(Format(m.args)));
      StrFrame(b2, p + StrSize(m.path), buf[..], p + StrSize(m.path), Format(m.args));
    }

    // ---- bundles and items ----

    /** The bundle tag and time tag; `ref` remembers where the bundle starts. */
    method PushBundle(t: u64) returns (ok: bool, ref: nat)
      requires Valid()
      modifies this`ptr, buf
      ensures Valid() && Keeps(old(ptr)) && Ahead() && ref == old(ptr)
      ensures ok == (old(ptr) + 16 < end)
      ensures ptr == old(ptr) + if ok then 16 else 0
      ensures ok ==> Holds(buf[..], ref, BUNDLE_TAG) && U64At(buf[..], ref + 8) == t
    {
      ref := ptr;
      if Overflow(16) { return false, ref; }
      PutBytes(ptr, BUNDLE_TAG);
      ghost var before := buf[..];
      ptr := ptr + 8;
      ok := HtoBe64(t);
      assert forall i | ref <= i < ref + 8 :: buf[..][i] == before[i];
    }

    /** A bundle without items is rejected and the cursor goes back to its start. */
    method PopBundle(ref: nat) returns (ok: bool)
      requires Valid() && ref <= end
      modifies this`ptr
      ensures Valid()
      ensures ok == (old(ptr) > ref + 16)
      ensures ptr == if ok then old(ptr) else ref
    {
      if ptr - ref - 16 <= 0 {
        ptr := ref;
        return false;
      }
      return true;
    }

    /** Room for an item's size. */
    method PushItem() returns (ok: bool, ref: nat)
      requires Valid()
      modifies this`ptr
      ensures Valid() && ref == old(ptr)
      ensures ok == (old(ptr) + 4 < end)
      ensures ptr == old(ptr) + if ok then 4 else 0
    {
      ref := ptr;
      if Overflow(4) { return false, ref; }
      ptr := ptr + 4;
      return true, ref;
    }

    /** Patch the item's size with the length of what was written since; an empty item is taken back. */
    method PopItem(ref: nat) returns (ok: bool)
      requires Valid() && ref + 4 <= end
      modifies this`ptr, buf
      ensures Valid()
      ensures ok == (old(ptr) > ref + 4)
      ensures ptr == if ok then old(ptr) else ref
      ensures ok ==> U32At(buf[..], ref) == ptr - ref - 4
      ensures !ok ==> buf[..] == old(buf[..])
      ensures forall i | 0 <= i < buf.Length && !(ref <= i < ref + 4) :: buf[i] == old(buf[i])
    {
      if ptr - ref - 4 <= 0 {
        ptr := ref;
        return false;
      }
      PutWord(ref, ptr - ref - 4);
      return true;
    }

    /** A whole packet, by nested pushes and pops; it succeeds exactly when no bundle in it is empty, its
        MIDI data fits and it ends before the buffer does. */
    method WritePacket(k: Packet) returns (ok: bool)
      requires Valid() && PacketOk(k)
      modifies this`ptr, buf
      ensures Valid() && Keeps(old(ptr)) && (ok ==> Ahead())
      ensures ok == (Acceptable(k) && old(ptr) + PacketSize(k) < end)
      ensures k.Bundle? && |k.items| == 0 ==> ptr == old(ptr)
      ensures ok ==> ptr == old(ptr) + PacketSize(k) && PacketAt(buf[..], old(ptr), k)
      decreases k, 1
    {
      match k
      case Single(m) =>
        hide MsgAt, MsgSize;
        ok := MessageVarlist(m);
      case Bundle(t, items) =>
        hide ItemsAt, U64At, Holds;
        ok := WriteBundle(t, items);
    }

    method WriteBundle(t: u64, items: seq<Packet>) returns (ok: bool)
      requires Valid() && forall j | 0 <= j < |items| :: PacketOk(items[j])
      modifies this`ptr, buf
      ensures Valid() && Keeps(old(ptr)) && (ok ==> Ahead())
      ensures ok == (|items| > 0 && (forall j | 0 <= j < |items| :: Acceptable(items[j]))
                     && old(ptr) + 16 + ItemsSize(items) < end)
      ensures |items| == 0 ==> !ok && ptr == old(ptr)
      ensures ok ==>
                && ptr == old(ptr) + 16 + ItemsSize(items)
                && Holds(buf[..], old(ptr), BUNDLE_TAG) && U64At(buf[..], old(ptr) + 8) == t
                && ItemsAt(buf[..], old(ptr) + 16, items)
      decreases items, 1
    {
      hide ItemsAt, U64At, Holds, PacketOk, Acceptable;
      ghost var p := ptr;
      var ref;
      ok, ref := PushBundle(t);
      if !ok { return; }
      ghost var before := buf[..];
      ok := WriteItems(items);
      if !ok { return; }
      BundleFrame(before, buf[..], p, t);
      ok := PopBundle(ref);
    }

    static lemma BundleFrame(b: seq<byte>, c: seq<byte>, p: nat, t: u64)
      requires p + 16 <= |b| && |b| == |c| && forall i | 0 <= i < p + 16 :: b[i] == c[i]
      requires Holds(b, p, BUNDLE_TAG) && U64At(b, p + 8) == t
      ensures Holds(c, p, BUNDLE_TAG) && U64At(c, p + 8) == t
    {
    }

    method WriteItems(items: seq<Packet>) returns (ok: bool)
      requires Valid() && ptr < end && forall j | 0 <= j < |items| :: PacketOk(items[j])
      modifies this`ptr, buf
      ensures Valid() && Keeps(old(ptr)) && (ok ==> Ahead())
      ensures ok == ((forall j | 0 <= j < |items| :: Acceptable(items[j])) && old(ptr) + ItemsSize(items) < end)
      ensures ok ==> ptr == old(ptr) + ItemsSize(items) && ItemsAt(buf[..], old(ptr), items)
      decreases items, 0
    {
      hide PacketAt, PacketOk, ItemsAt, ItemsSize, Acceptable;
      ghost var p := ptr;
      assert items[..0] == [] && items[..|items|] == items;
      EmptyItems(buf[..], p);
      for j := 0 to |items|
        invariant Valid() && Keeps(p) && Ahead()
        invariant forall i | 0 <= i < j :: Acceptable(items[i])
        invariant ptr == p + ItemsSize(items[..j]) < end
        invariant ItemsAt(buf[..], p, items[..j])
      {
        ghost var before := buf[..];
        ItemsSplit(items, j);
        ok := WriteItem(items[j]);
        if !ok {
          assert !Acceptable(items[j]) || p + ItemsSize(items) >= end;
          return false;
        }
        assert Same(before, p, buf[..], p, ItemsSize(items[..j]));
        ItemsFrame(before, p, buf[..], p, items[..j]);
        ItemsSnoc(buf[..], p, items, j);
      }
      ok := true;
    }

    method WriteItem(k: Packet) returns (ok: bool)
      requires Valid() && ptr < end && PacketOk(k)
      modifies this`ptr, buf
      ensures Valid() && Keeps(old(ptr)) && (ok ==> Ahead())
      ensures ok == (Acceptable(k) && old(ptr) + 4 + PacketSize(k) < end)
      ensures ok ==> && ptr == old(ptr) + 4 + PacketSize(k)
                     && U32At(buf[..], old(ptr)) == PacketSize(k) && PacketAt(buf[..], old(ptr) + 4, k)
      decreases k, 2
    {
      hide PacketAt, PacketOk, PacketSize, Acceptable;
      var ref;
      ok, ref := PushItem();
      if !ok { return; }
      ok := WritePacket(k);
      if !ok { return; }
      ghost var before := buf[..];
      ok := PopItem(ref);
      assert Same(before, ref + 4, buf[..], ref + 4, PacketSize(k));
      PacketFrame(before, ref + 4, buf[..], ref + 4, k);
    }

    static lemma EmptyItems(b: seq<byte>, p: nat)
      ensures ItemsAt(b, p, []) && ItemsSize([]) == 0
    {
    }

    static lemma ItemsSplit(items: seq<Packet>, j: nat)
      requires j < |items|
      ensures ItemsSize(items[..j + 1]) == ItemsSize(items[..j]) + 4 + PacketSize(items[j]) <= ItemsSize(items)
    {
      hide PacketSize, ItemsSize, MsgSize;
      assert items == items[..j + 1] + items[j + 1..] && items[..j + 1] == items[..j] + [items[j]];
      ItemsSizeAppend(items[..j + 1], items[j + 1..]);
      ItemsSizeAppend(items[..j], [items[j]]);
      OneItem(items[j]);
    }

    static lemma OneItem(k: Packet)
      ensures ItemsSize([k]) == 4 + PacketSize(k)
    {
      assert [k][1..] == [];
    }

    static lemma ItemsSnoc(b: seq<byte>, p: nat, items: seq<Packet>, j: nat)
      requires j < |items| && ItemsAt(b, p, items[..j])
      requires p + ItemsSize(items[..j]) + 4 <= |b|
      requires U32At(b, p + ItemsSize(items[..j])) == PacketSize(items[j])
      requires PacketAt(b, p + ItemsSize(items[..j]) + 4, items[j])
      ensures ItemsAt(b, p, items[..j + 1])
    {
      hide PacketAt;
      assert items[..j + 1] == items[..j] + [items[j]];
      assert [items[j]][1..] == [];
      ItemsAtAppend(b, p, items[..j], [items[j]]);
    }
  }
}
