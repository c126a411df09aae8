/** The OSC reader: a cursor over received bytes, iterating arguments and bundle items. */
module Reader {
  import opened Bytes
  import opened Osc
  import opened Unambiguous

  class OscReader {
    const buf: seq<byte>
    var ptr: nat
    var end: nat

    ghost predicate Valid()
      reads this
    {
      ptr <= |buf| && end <= |buf|
    }

    /** A reader over the `len` bytes at `at`. */
    constructor (buf: seq<byte>, at: nat, len: nat)
      requires at + len <= |buf|
      ensures Valid() && this.buf == buf && ptr == at && end == at + len
    {
      this.buf := buf;
      ptr := at;
      end := at + len;
    }

    constructor Clone(other: OscReader)
      requires other.Valid()
      ensures Valid() && buf == other.buf && ptr == other.ptr && end == other.end
    {
      buf := other.buf;
      ptr := other.ptr;
      end := other.end;
    }

    predicate Overflow(size: int)
      reads this
    {
      ptr + size > end
    }

    method Be32ToH() returns (ok: bool, u: u32)
      requires Valid()
      modifies this`ptr
      ensures Valid()
      ensures ok == (old(ptr) + 4 <= end)
      ensures ptr == old(ptr) + if ok then 4 else 0
      ensures ok ==> u == U32At(buf, old(ptr))
    {
      if Overflow(4) { return false, 0; }
      u := U32At(buf, ptr);
      ptr := ptr + 4;
      ok := true;
    }

    method Be64ToH() returns (ok: bool, u: u64)
      requires Valid()
      modifies this`ptr
      ensures Valid()
      ensures ok == (old(ptr) + 8 <= end)
      ensures ptr == old(ptr) + if ok then 8 else 0
      ensures ok ==> u == U64At(buf, old(ptr))
    {
      if Overflow(8) { return false, 0; }
      u := U64At(buf, ptr);
      ptr := ptr + 8;
      ok := true;
    }

    /** The string at the cursor, up to its NUL, the cursor going behind its padding. */
    method GetString(ghost s: seq<byte>) returns (ok: bool, str: seq<byte>)
      requires Valid() && CString(s) && StrAt(buf, ptr, s)
      modifies this`ptr
      ensures Valid()
      ensures ok == (old(ptr) + StrSize(s) <= end)
      ensures ptr == old(ptr) + if ok then StrSize(s) else 0
      ensures ok ==> str == s
    {
      var n := 0;
      assert buf[ptr + |s|] == 0;
      while buf[ptr + n] != 0  // strlen
        invariant n <= |s|
        invariant n < |s| ==> buf[ptr + n] == s[n]
        decreases |s| - n
      {
        n := n + 1;
      }
      str := buf[ptr..ptr + n];
      assert str == s;
      var padded := Pad4(n + 1);
      if Overflow(padded) { return false, str; }
      ptr := ptr + padded;
      ok := true;
    }

    /** A blob's length and bytes, refused if its padding runs over the end. */
    method GetBlob() returns (ok: bool, body: seq<byte>)
      requires Valid() && (ptr + 4 <= end ==> U32At(buf, ptr) < 0x8000_0000)
      modifies this`ptr
      ensures Valid()
      ensures ok == (old(ptr) + 4 <= end && old(ptr) + 4 + Pad4(U32At(buf, old(ptr))) <= end)
      ensures ok ==> && ptr == old(ptr) + 4 + Pad4(U32At(buf, old(ptr)))
                     && body == buf[old(ptr) + 4..old(ptr) + 4 + U32At(buf, old(ptr))]
    {
      var u;
      body := [];
      ok, u := Be32ToH();
      if !ok { return; }
      var len := I32Of(u);
      var padded := Pad4(len);
      if Overflow(padded) { return false, []; }
      body := buf[ptr..ptr + len];
      ptr := ptr + padded;
    }

    /** The four bytes at the cursor. */
    method GetMidi() returns (ok: bool, m: seq<byte>)
      requires Valid()
      modifies this`ptr
      ensures Valid()
      ensures ok == (old(ptr) + 4 <= end)
      ensures ptr == old(ptr) + if ok then 4 else 0
      ensures ok ==> m == buf[old(ptr)..old(ptr) + 4]
    {
      if Overflow(4) { return false, []; }
      m := buf[ptr..ptr + 4];
      ptr := ptr + 4;
      ok := true;
    }

    predicate IsBundle()
      requires ptr + 8 <= |buf|
      reads this
    {
      buf[ptr..ptr + 8] == BUNDLE_TAG
    }

    predicate IsMessage()
      requires ptr < |buf|
      reads this
    {
      buf[ptr] == SLASH
    }

    // ---- arguments ----

    /** Read the argument of the cursor's current type; it fails exactly when it does not fit before the end. */
    method ArgRaw(cur: ArgCursor, ghost a: Arg) returns (ok: bool)
      requires Valid() && cur.typ < |buf| && buf[cur.typ] == TypeOf(a)
      requires ArgOk(a) && ReadsBack(a) && ArgAt(buf, ptr, a)
      modifies this`ptr, cur`value, cur`size
      ensures Valid()
      ensures ok == (old(ptr) + ArgSize(a) <= end || ArgSize(a) == 0)
      ensures ok ==> ptr == old(ptr) + ArgSize(a) && cur.value == a
      ensures ok ==> cur.size == if HasValue(a) then ValueSize(a) else old(cur.size)
      ensures ok ==> match cur.value
                     case Str(s) => cur.size == |s| + 1
                     case Symbol(y) => cur.size == |y| + 1
                     case Blob(b) => cur.size == |b|
                     case Int64(_) => cur.size == 8
                     case Double(_) => cur.size == 8
                     case Timetag(_) => cur.size == 8
                     case True => cur.size == old(cur.size)
                     case False => cur.size == old(cur.size)
                     case Nil => cur.size == old(cur.size)
                     case Impulse => cur.size == old(cur.size)
                     case _ => cur.size == 4
    {
      hide U32At, U64At, StrAt, StrSize;
      var t := buf[cur.typ];
      ok := true;
      if t == TYPE_INT32 {
        var u;
        ok, u := Be32ToH();
        if ok { cur.value, cur.size := Int32(I32Of(u)), 4; }
      } else if t == TYPE_FLOAT {
        var u;
        ok, u := Be32ToH();
        if ok { cur.value, cur.size := Float(u), 4; }
      } else if t == TYPE_STRING {
        var s;
        ok, s := GetString(a.s);
        if ok { cur.value, cur.size := Str(s), |s| + 1; }
      } else if t == TYPE_BLOB {
        var b;
        ok, b := GetBlob();
        assert ok ==> b == a.b;
        if ok { cur.value, cur.size := Blob(b), |b|; }
      } else if t == TYPE_TRUE {
        cur.value := True;
      } else if t == TYPE_FALSE {
        cur.value := False;
      } else if t == TYPE_NIL {
        cur.value := Nil;
      } else if t == TYPE_IMPULSE {
        cur.value := Impulse;
      } else if t == TYPE_INT64 {
        var u;
        ok, u := Be64ToH();
        if ok { cur.value, cur.size := Int64(I64Of(u)), 8; }
      } else if t == TYPE_DOUBLE {
        var u;
        ok, u := Be64ToH();
        if ok { cur.value, cur.size := Double(u), 8; }
      } else if t == TYPE_TIMETAG {
        var u;
        ok, u := Be64ToH();
        if ok { cur.value, cur.size := Timetag(u), 8; }
      } else if t == TYPE_MIDI {
        var m;
        ok, m := GetMidi();
        if ok { cur.value, cur.size := Midi(m), 4; }
        assert ok ==> m == a.m;
      } else if t == TYPE_SYMBOL {
        var s;
        ok, s := GetString(a.y);
        if ok { cur.value, cur.size := Symbol(s), |s| + 1; }
      } else if t == TYPE_CHAR {
        var u;
        ok, u := Be32ToH();
        if ok { cur.value, cur.size := Char(I8Of(u)), 4; }
      } else if t == TYPE_RGBA {
        var m;
        ok, m := GetMidi();
        if ok { cur.value, cur.size := Rgba(m[0], m[1], m[2], m[3]), 4; }
      }
    }

    /** Begin a message of `len` bytes at the cursor and read its first argument. */
    method ArgBegin(cur: ArgCursor, len: nat, ghost m: Message) returns (ok: bool)
      requires Valid() && MessageOk(m) && AllReadBack(m.args)
      requires MsgAt(buf, ptr, m) && len == MsgSize(m)
      modifies this`ptr, cur
      ensures Valid() && end == old(end)
      ensures ok == (old(ptr) + len <= end)
      ensures ok ==> cur.Reads(this, m, old(ptr), 0)
    {
      hide StrAt, StrSize, ArgAt, ArgsAt, ArgsSize, ArgOk, CString;
      if Overflow(len) { return false; }
      cur.end := ptr + len;
      ghost var p := ptr;
      var fmt;
      MessageParts(m);
      ok, cur.path := GetString(m.path);
      cur.typ := ptr;
      ok, fmt := GetString(Format(m.args));
      TypesAt(buf, p, m);
      if fmt[0] != COMMA {
        return false;
      }
      cur.typ := cur.typ + 1;  // skip ','
      ok := ReadCurrent(cur, m, p, 0);
    }

    /** Advance to the next argument. */
    method ArgNext(cur: ArgCursor, ghost m: Message, ghost p: nat, ghost k: nat) returns (ok: bool)
      requires Valid() && cur.Reads(this, m, p, k) && k < |m.args|
      modifies this`ptr, cur`typ, cur`value, cur`size
      ensures Valid() && end == old(end)
      ensures ok && cur.Reads(this, m, p, k + 1)
    {
      hide StrAt, StrSize, ArgAt, ArgsAt, ArgsSize, ArgOk, CString, MsgSize, HeadSize;
      TypesAt(buf, p, m);
      cur.typ := cur.typ + 1;
      ok := ReadCurrent(cur, m, p, k + 1);
    }

    /** `arg_raw` at position `k` of a message, where it finds the k-th argument or the format's NUL. */
    method ReadCurrent(cur: ArgCursor, ghost m: Message, ghost p: nat, ghost k: nat) returns (ok: bool)
      requires Valid() && MessageOk(m) && AllReadBack(m.args) && MsgAt(buf, p, m) && p + MsgSize(m) <= end
      requires k <= |m.args|
      requires cur.path == m.path && cur.end == p + MsgSize(m)
      requires cur.typ == p + StrSize(m.path) + 1 + k
      requires ptr == p + HeadSize(m) + ArgsSize(m.args[..k])
      modifies this`ptr, cur`value, cur`size
      ensures Valid() && ok && cur.Reads(this, m, p, k)
    {
      hide StrAt, StrSize, ArgAt, ArgsAt, ArgsSize, CString;
      TypesAt(buf, p, m);
      assert m.args[..|m.args|] == m.args;
      if buf[cur.typ] != 0 {
        ArgAtIndex(buf, p + HeadSize(m), m.args, k);
        ok := ArgRaw(cur, m.args[k]);
      } else {
        ok := true;
      }
    }

    static lemma MessageParts(m: Message)
      ensures StrSize(m.path) + StrSize(Format(m.args)) <= MsgSize(m)
      ensures MessageOk(m) ==> CString(m.path) && CString(Format(m.args))
      ensures ArgsSize(m.args[..0]) == 0
    {
    }

    /** The type characters and their NUL, as the bytes of the message show them. */
    static lemma TypesAt(b: seq<byte>, p: nat, m: Message)
      requires MsgAt(b, p, m)
      ensures var q := p + StrSize(m.path) + 1;
              && q + |m.args| < p + HeadSize(m) <= |b|
              && b[q - 1] == COMMA
              && (forall k | 0 <= k < |m.args| :: b[q + k] == TypeOf(m.args[k]))
              && b[q + |m.args|] == 0
    {
      var f := Format(m.args);
      var q := p + StrSize(m.path);
      assert StrAt(b, q, f);
      assert b[q + 0] == f[0];
      forall k | 0 <= k < |m.args|
        ensures b[q + 1 + k] == TypeOf(m.args[k])
      {
        assert b[q + (k + 1)] == f[k + 1];
      }
    }

    // ---- bundle items ----

    /** The size word of an item, an int32_t; a negative size passes the test against the end. */
    method ItemRaw(itm: Item) returns (ok: bool)
      requires Valid()
      modifies this`ptr, itm`size, itm`body
      ensures Valid()
      ensures ok == (old(ptr) + 4 <= end && old(ptr) + 4 + I32Of(U32At(buf, old(ptr))) <= end)
      ensures ok ==> itm.size == I32Of(U32At(buf, old(ptr))) && itm.body == ptr == old(ptr) + 4
    {
      var u;
      ok, u := Be32ToH();
      if !ok { return false; }
      itm.size := I32Of(u);
      if Overflow(itm.size) { return false; }
      itm.body := ptr;
    }

    /** Begin a bundle: its tag, its time tag and the size of its first item. */
    method ItemBegin(itm: Item, len: nat, ghost t: u64, ghost items: seq<Packet>) returns (ok: bool)
      requires Valid() && PacketAt(buf, ptr, Bundle(t, items))
      requires ptr + len == end && len == PacketSize(Bundle(t, items))
      modifies this`ptr, itm
      ensures Valid() && itm.timetag == t
      ensures ok == (|items| > 0)
      ensures ok ==> itm.Holds(this, t, old(ptr) + 16, items)
    {
      hide PacketAt, ItemsAt;
      BundleParts(buf, ptr, t, items);
      if Overflow(len) { return false; }
      itm.end := ptr + len;
      if Overflow(16) { return false; }
      if buf[ptr..ptr + 8] != BUNDLE_TAG { return false; }
      ptr := ptr + 8;
      ok, itm.timetag := Be64ToH();
      if !ok { return false; }
      ok := ItemRaw(itm);
    }

    /** Skip the current item's body and read the size of the next. */
    method ItemNext(itm: Item, ghost t: u64, ghost p: nat, ghost items: seq<Packet>) returns (ok: bool)
      requires Valid() && itm.Holds(this, t, p, items)
      modifies this`ptr, itm`size, itm`body
      ensures Valid()
      ensures ok == (|items| > 1)
      ensures ok ==> itm.Holds(this, t, p + 4 + PacketSize(items[0]), items[1..])
    {
      hide PacketAt, ItemsAt, PacketSize, ItemsSize, U32At;
      ItemParts(buf, p, items);
      if |items| > 1 { ItemParts(buf, p + 4 + PacketSize(items[0]), items[1..]); }
      ptr := ptr + itm.size;
      ok := ItemRaw(itm);
    }

    static lemma BundleParts(b: seq<byte>, p: nat, t: u64, items: seq<Packet>)
      requires PacketAt(b, p, Bundle(t, items))
      ensures p + 16 + ItemsSize(items) <= |b| && ItemsAt(b, p + 16, items)
      ensures b[p..p + 8] == BUNDLE_TAG && U64At(b, p + 8) == t
      ensures |items| > 0 ==> PacketSize(items[0]) < 0x8000_0000
      ensures |items| > 0 ==> U32At(b, p + 16) == PacketSize(items[0]) && 4 + PacketSize(items[0]) <= ItemsSize(items)
    {
    }

    static lemma ItemParts(b: seq<byte>, p: nat, items: seq<Packet>)
      requires ItemsAt(b, p, items) && |items| > 0
      ensures p + 4 + PacketSize(items[0]) <= |b| && PacketSize(items[0]) < 0x8000_0000
      ensures U32At(b, p) == PacketSize(items[0]) && PacketAt(b, p + 4, items[0])
      ensures ItemsSize(items) == 4 + PacketSize(items[0]) + ItemsSize(items[1..])
      ensures ItemsAt(b, p + 4 + PacketSize(items[0]), items[1..])
    {
    }
  }

  /** The argument a message iteration stands at. */
  class ArgCursor {
    var typ: nat            // offset of the current type character
    var size: nat
    var value: Arg
    var path: seq<byte>
    var end: nat

    constructor ()
    {
      typ, size, value, path, end := 0, 0, Nil, [], 0;
    }

    predicate IsEnd(reader: OscReader)
      requires typ < |reader.buf|
      reads this, reader
    {
      reader.buf[typ] == 0 || reader.ptr > end
    }

    /** The reader stands in message `m`, which starts at `p`, having read the first k+1 arguments. */
    ghost predicate Reads(reader: OscReader, m: Message, p: nat, k: nat)
      reads this, reader
    {
      && reader.Valid() && MessageOk(m) && AllReadBack(m.args)
      && MsgAt(reader.buf, p, m) && p + MsgSize(m) <= reader.end
      && k <= |m.args|
      && path == m.path && end == p + MsgSize(m)
      && typ == p + StrSize(m.path) + 1 + k
      && (k < |m.args| ==> value == m.args[k] && (HasValue(m.args[k]) ==> size == ValueSize(m.args[k])))
      && reader.ptr == p + HeadSize(m) + ArgsSize(m.args[..if k < |m.args| then k + 1 else k])
    }

    /** The iteration ends exactly behind the last argument, and there the cursor is at the message's end. */
    lemma EndsAtEnd(reader: OscReader, m: Message, p: nat, k: nat)
      requires Reads(reader, m, p, k)
      ensures typ < |reader.buf|
      ensures IsEnd(reader) <==> k == |m.args|
      ensures k == |m.args| ==> reader.ptr == p + MsgSize(m) == end
      ensures reader.Valid() && k <= |m.args| && path == m.path
      ensures k < |m.args| ==> reader.buf[typ] == TypeOf(m.args[k]) && value == m.args[k]
    {
      hide StrAt, StrSize, ArgAt, ArgsAt, ArgsSize, CString, ArgOk;
      OscReader.TypesAt(reader.buf, p, m);
      assert m.args[..|m.args|] == m.args;
      if k < |m.args| {
        ArgAtIndex(reader.buf, p + HeadSize(m), m.args, k);
      }
    }
  }

  /** The item a bundle iteration stands at. */
  class Item {
    var size: i32
    var body: nat           // offset of the item's bytes
    var timetag: u64
    var end: nat

    constructor ()
    {
      size, body, timetag, end := 0, 0, IMMEDIATE, 0;
    }

    predicate IsEnd(reader: OscReader)
      reads this, reader
    {
      reader.ptr > end
    }

    /** The reader stands at the body of the first of the remaining `items`, whose size word is at `p`. */
    ghost predicate Holds(reader: OscReader, t: u64, p: nat, items: seq<Packet>)
      reads this, reader
    {
      && reader.Valid() && |items| > 0
      && ItemsAt(reader.buf, p, items) && p + ItemsSize(items) == reader.end == end
      && timetag == t && size == PacketSize(items[0]) && body == reader.ptr == p + 4
    }
  }

  /** A char is the low byte of its word, as a signed number. */
  lemma I8OfWord(u: u32)
    ensures (I8Of(u) - u) % 256 == 0
  {
  }

  function I8Of(u: u32): i8 {
    var low := u % 0x100;
    if low < 0x80 then low else low - 0x100
  }

  /** Read a whole message argument by argument: it gives back exactly what was written and stops at its end. */
  method ReadMessage(reader: OscReader, len: nat, ghost m: Message) returns (path: seq<byte>, args: seq<Arg>)
    requires reader.Valid() && MessageOk(m) && AllReadBack(m.args)
    requires MsgAt(reader.buf, reader.ptr, m) && len == MsgSize(m) && reader.ptr + len <= reader.end
    modifies reader
    ensures reader.Valid() && reader.end == old(reader.end)
    ensures Message(path, args) == m
    ensures reader.ptr == old(reader.ptr) + len
  {
    hide MsgAt, MessageOk, AllReadBack, HasValue, ValueSize, ArgCursor.Reads;
    ghost var p := reader.ptr;
    ghost var k := 0;
    var cur := new ArgCursor();
    var ok := reader.ArgBegin(cur, len, m);
    path := cur.path;
    args := [];
    cur.EndsAtEnd(reader, m, p, k);
    while ok && !cur.IsEnd(reader)
      invariant fresh(cur) && reader.Valid() && reader.end == old(reader.end)
      invariant ok && k <= |m.args| && cur.Reads(reader, m, p, k)
      invariant cur.typ < |reader.buf|
      invariant args == m.args[..k]
      decreases |m.args| - k
    {
      cur.EndsAtEnd(reader, m, p, k);
      args := args + [cur.value];
      ok := reader.ArgNext(cur, m, p, k);
      k := k + 1;
      cur.EndsAtEnd(reader, m, p, k);
    }
    cur.EndsAtEnd(reader, m, p, k);
  }

  /** Read a whole packet, descending into each item with a reader of its own over strictly fewer bytes. */
  method ReadPacket(buf: seq<byte>, at: nat, len: nat, ghost k: Packet) returns (r: Packet)
    requires Readable(k) && PacketAt(buf, at, k) && len == PacketSize(k)
    ensures r == k
    decreases len, 1
  {
    hide PacketAt, PacketSize;
    PacketBounds(buf, at, k);
    var reader := new OscReader(buf, at, len);
    StartsWith(buf, at, k);
    if reader.IsBundle() {
      var itm := new Item();
      var ok := reader.ItemBegin(itm, len, k.timetag, k.items);
      var items := ReadItems(reader, itm, ok, len, k.timetag, at + 16, k.items);
      r := Bundle(itm.timetag, items);
    } else {
      var path, args := ReadMessage(reader, len, k.msg);
      r := Single(Message(path, args));
    }
  }

  /** The iteration over a bundle's items. */
  method ReadItems(reader: OscReader, itm: Item, begun: bool, len: nat, ghost t: u64, ghost start: nat,
                   ghost ks: seq<Packet>) returns (items: seq<Packet>)
    requires reader.Valid() && itm.timetag == t && begun == (|ks| > 0)
    requires begun ==> itm.Holds(reader, t, start, ks) && ItemsSize(ks) + 16 <= len
    requires forall j | 0 <= j < |ks| :: Readable(ks[j])
    modifies reader, itm
    ensures items == ks && itm.timetag == t
    decreases len, 0
  {
    hide PacketAt, ItemsAt, PacketSize, ItemsSize, Readable;
    ghost var p: nat := start;
    var ok := begun;
    items := [];
    assert ks[0..] == ks;
    while ok && !itm.IsEnd(reader)
      invariant reader.Valid() && itm.timetag == t && |items| <= |ks|
      invariant items == ks[..|items|]
      invariant ok == (|items| < |ks|)
      invariant ok ==> itm.Holds(reader, t, p, ks[|items|..]) && ItemsSize(ks[|items|..]) + 16 <= len
      decreases |ks| - |items|
    {
      ghost var left := ks[|items|..];
      OscReader.ItemParts(reader.buf, p, left);
      var item := ReadPacket(reader.buf, itm.body, itm.size, left[0]);
      ok := reader.ItemNext(itm, t, p, left);
      assert left[1..] == ks[|items| + 1..];
      items := items + [item];
      p := p + 4 + PacketSize(left[0]);
    }
  }

  lemma PacketBounds(b: seq<byte>, p: nat, k: Packet)
    requires PacketAt(b, p, k)
    ensures p + PacketSize(k) <= |b| && 8 <= PacketSize(k) < 0x8000_0000
    ensures k.Bundle? ==> PacketSize(k) == 16 + ItemsSize(k.items)
  {
  }
}
