/** OSC 1.0 encoded by the text of its specification: a reference for the sizes and the layout the writer and
    the reader are proved against, sharing none of their constants and conversions. */
module Reference {
  import opened Bytes
  import opened Osc
  import opened Unambiguous

  /** A number in network order. */
  function Big4(n: u32): (s: seq<byte>)
    ensures |s| == 4
  {
    [n / 0x100_0000, n / 0x1_0000 % 0x100, n / 0x100 % 0x100, n % 0x100]
  }

  function Big8(n: u64): (s: seq<byte>)
    ensures |s| == 8
  {
    Big4(n / 0x1_0000_0000) + Big4(n % 0x1_0000_0000)
  }

  function Zeros(n: nat): (s: seq<byte>)
    ensures |s| == n && forall i | 0 <= i < n :: s[i] == 0
  {
    seq(n, i => 0)
  }

  /** A string, one to four NULs making its size a multiple of four. */
  function OscString(s: seq<byte>): seq<byte> { s + Zeros(4 - |s| % 4) }

  /** Bytes filled up to a multiple of four. */
  function Filled(s: seq<byte>): seq<byte> { s + Zeros((4 - |s| % 4) % 4) }

  /** The type tags of the specification's tables. */
  function Tag(a: Arg): char {
    match a
    case Int32(_) => 'i'
    case Float(_) => 'f'
    case Str(_) => 's'
    case Blob(_) => 'b'
    case True => 'T'
    case False => 'F'
    case Nil => 'N'
    case Impulse => 'I'
    case Int64(_) => 'h'
    case Double(_) => 'd'
    case Timetag(_) => 't'
    case Symbol(_) => 'S'
    case Char(_) => 'c'
    case Midi(_) => 'm'
    case Rgba(_, _, _, _) => 'r'
  }

  function Tags(args: seq<Arg>): (s: string)
    ensures |s| == |args| && forall i | 0 <= i < |s| :: s[i] == Tag(args[i]) < 128 as char
  {
    seq(|args|, i requires 0 <= i < |args| => Tag(args[i]))
  }

  function Encoded(a: Arg): seq<byte>
    requires ArgOk(a)
  {
    match a
    case Int32(i) => Big4(i % 0x1_0000_0000)
    case Float(f) => Big4(f)
    case Str(s) => OscString(s)
    case Symbol(y) => OscString(y)
    case Blob(b) => Big4(|b|) + Filled(b)
    case True => []
    case False => []
    case Nil => []
    case Impulse => []
    case Int64(h) => Big8(h % 0x1_0000_0000_0000_0000)
    case Double(d) => Big8(d)
    case Timetag(t) => Big8(t)
    case Char(c) => Big4(c % 0x1_0000_0000)
    case Midi(m) => if |m| == 0 then Zeros(4) else Filled(m)
    case Rgba(r, g, b, al) => [r, g, b, al]
  }

  function EncodedArgs(args: seq<Arg>): seq<byte>
    requires forall k | 0 <= k < |args| :: ArgOk(args[k])
  {
    if |args| == 0 then [] else Encoded(args[0]) + EncodedArgs(args[1..])
  }

  function EncodedMessage(m: Message): seq<byte>
    requires MessageOk(m)
  {
    OscString(m.path) + OscString(Text("," + Tags(m.args))) + EncodedArgs(m.args)
  }

  function EncodedPacket(k: Packet): seq<byte>
    requires PacketOk(k)
    decreases k, 0
  {
    match k
    case Single(m) => EncodedMessage(m)
    case Bundle(t, items) => OscString(Text("#bundle")) + Big8(t) + EncodedItems(items)
  }

  function EncodedItems(items: seq<Packet>): seq<byte>
    requires forall j | 0 <= j < |items| :: PacketOk(items[j])
    decreases items
  {
    if |items| == 0 then []
    else
      var item := EncodedPacket(items[0]);
      Big4(|item| % 0x1_0000_0000) + item + EncodedItems(items[1..])
  }

  // ---- the layout is this encoding ----

  lemma BigWord(n: u32)
    ensures U32At(Big4(n), 0) == n
  {
    var a := n / 0x100;
    var b := a / 0x100;
    assert n / 0x1_0000 == b && n / 0x100_0000 == b / 0x100;
  }

  lemma BigLong(n: u64)
    ensures U64At(Big8(n), 0) == n
  {
    hide U32At, Big4;
    var x, y := Big4(n / 0x1_0000_0000), Big4(n % 0x1_0000_0000);
    BigWord(n / 0x1_0000_0000);
    BigWord(n % 0x1_0000_0000);
    Piece([], x, y);
    Piece(x, y, []);
    WordFrame(x, 0, Big8(n), 0);
    WordFrame(y, 0, Big8(n), 4);
  }

  /** The middle of three pieces stands behind the first. */
  lemma Piece(x: seq<byte>, y: seq<byte>, z: seq<byte>)
    ensures Same(y, 0, x + y + z, |x|, |y|)
    ensures x == [] ==> Same(y, 0, y + z, 0, |y|)
    ensures z == [] ==> Same(y, 0, x + y, |x|, |y|)
  {
  }

  lemma StringIsLaidOut(s: seq<byte>)
    ensures |OscString(s)| == StrSize(s) && StrAt(OscString(s), 0, s)
  {
  }

  lemma FilledBytes(s: seq<byte>)
    ensures |Filled(s)| == Pad4(|s|) && Holds(Filled(s), 0, s)
  {
  }

  lemma BlobIsLaidOut(b: seq<byte>)
    requires |b| < 0x8000_0000
    ensures var e := Big4(|b|) + Filled(b);
            && |e| == 4 + Pad4(|b|) && U32At(e, 0) == |b| && Holds(e, 4, b)
  {
    hide U32At, Big4, Filled;
    var e := Big4(|b|) + Filled(b);
    BigWord(|b|);
    FilledBytes(b);
    Piece([], Big4(|b|), Filled(b));
    WordFrame(Big4(|b|), 0, e, 0);
    assert forall k | 0 <= k < |b| :: Filled(b)[0 + k] == b[k];
  }

  lemma NumberIsLaidOut(a: Arg)
    requires a.Int32? || a.Float? || a.Int64? || a.Double? || a.Timetag? || a.Char?
    ensures |Encoded(a)| == ArgSize(a) && ArgAt(Encoded(a), 0, a)
  {
    hide U32At, U64At, Big4, Big8;
    match a
    case Int32(i) => BigWord(i % 0x1_0000_0000);
    case Float(f) => BigWord(f);
    case Int64(h) => BigLong(h % 0x1_0000_0000_0000_0000);
    case Double(d) => BigLong(d);
    case Timetag(t) => BigLong(t);
    case Char(c) => BigWord(c % 0x1_0000_0000);
  }

  lemma ArgIsLaidOut(a: Arg)
    requires ArgOk(a) && MidiFits(a)
    ensures |Encoded(a)| == ArgSize(a) && ArgAt(Encoded(a), 0, a)
  {
    hide U32At, U64At, Big4, Big8, StrAt, StrSize, OscString, Filled, Holds;
    match a
    case Str(s) => StringIsLaidOut(s);
    case Symbol(y) => StringIsLaidOut(y);
    case Blob(b) => BlobIsLaidOut(b);
    case Midi(m) => MidiIsLaidOut(m);
    case True =>
    case False =>
    case Nil =>
    case Impulse =>
    case Rgba(_, _, _, _) =>
    case _ => NumberIsLaidOut(a);
  }

  lemma MidiIsLaidOut(m: seq<byte>)
    requires |m| <= 4
    ensures var e := if |m| == 0 then Zeros(4) else Filled(m); |e| == 4 && Holds(e, 0, m)
  {
    FilledBytes(m);
  }

  lemma {:induction false} ArgsAreLaidOut(args: seq<Arg>)
    requires AllMidiFit(args) && forall k | 0 <= k < |args| :: ArgOk(args[k])
    ensures |EncodedArgs(args)| == ArgsSize(args) && ArgsAt(EncodedArgs(args), 0, args)
  {
    hide Encoded, ArgAt, ArgSize, ArgOk;
    if |args| > 0 {
      var x, y := Encoded(args[0]), EncodedArgs(args[1..]);
      ArgIsLaidOut(args[0]);
      ArgsAreLaidOut(args[1..]);
      Piece([], x, y);
      Piece(x, y, []);
      ArgFrame(x, 0, x + y, 0, args[0]);
      ArgsFrame(y, 0, x + y, |x|, args[1..]);
    }
  }

  lemma FormatIsTags(args: seq<Arg>)
    ensures Text("," + Tags(args)) == Format(args)
  {
    var t := Text("," + Tags(args));
    forall i | 0 <= i < |t|
      ensures t[i] == Format(args)[i]
    {
    }
  }

  lemma MessageIsLaidOut(m: Message)
    requires MessageOk(m) && AllMidiFit(m.args)
    ensures |EncodedMessage(m)| == MsgSize(m) && MsgAt(EncodedMessage(m), 0, m)
  {
    hide OscString, StrAt, StrSize, ArgsAt, EncodedArgs, Format, ArgOk;
    var x, y, z := OscString(m.path), OscString(Text("," + Tags(m.args))), EncodedArgs(m.args);
    StringIsLaidOut(m.path);
    FormatIsTags(m.args);
    StringIsLaidOut(Format(m.args));
    ArgsAreLaidOut(m.args);
    Piece([], x, y + z);
    assert x + (y + z) == x + y + z;
    Piece(x, y, z);
    Piece(x + y, z, []);
    StrFrame(x, 0, x + y + z, 0, m.path);
    StrFrame(y, 0, x + y + z, |x|, Format(m.args));
    ArgsFrame(z, 0, x + y + z, |x + y|, m.args);
  }

  lemma TagIsLaidOut()
    ensures OscString(Text("#bundle")) == BUNDLE_TAG
  {
    var t := OscString(Text("#bundle"));
    assert |t| == 8 && t[0] == 35 && t[1] == 98 && t[2] == 117 && t[3] == 110;
    assert t[4] == 100 && t[5] == 108 && t[6] == 101 && t[7] == 0;
  }

  /** The specification's encoding of any packet has the size and the layout the writer and the reader go by. */
  lemma {:induction false} PacketIsLaidOut(k: Packet)
    requires PacketOk(k) && Acceptable(k) && PacketSize(k) < 0x8000_0000
    ensures |EncodedPacket(k)| == PacketSize(k) && PacketAt(EncodedPacket(k), 0, k)
    decreases k, 1
  {
    hide MsgAt, MsgSize, ItemsAt, ItemsSize, EncodedItems, EncodedMessage, OscString, Big8, U64At, Holds;
    match k
    case Single(m) => MessageIsLaidOut(m);
    case Bundle(t, items) =>
      var z := EncodedItems(items);
      TagIsLaidOut();
      BigLong(t);
      ItemsAreLaidOut(items);
      BundleOf(BUNDLE_TAG, Big8(t), z, t);
      Piece(BUNDLE_TAG + Big8(t), z, []);
      ItemsFrame(z, 0, EncodedPacket(k), 16, items);
  }

  lemma BundleOf(x: seq<byte>, y: seq<byte>, z: seq<byte>, t: u64)
    requires x == BUNDLE_TAG && |y| == 8 && U64At(y, 0) == t
    ensures Holds(x + y + z, 0, BUNDLE_TAG) && |x + y + z| >= 16 && U64At(x + y + z, 8) == t
  {
    hide U32At, Same;
    Piece(x, y, z);
    TwoWords(y, 0, x + y + z, 8);
    assert forall i | 0 <= i < 8 :: (x + y + z)[i] == x[i];
  }

  lemma TwoWords(b: seq<byte>, p: nat, c: seq<byte>, r: nat)
    requires Same(b, p, c, r, 8)
    ensures p + 8 <= |b| && r + 8 <= |c| && U64At(b, p) == U64At(c, r)
  {
    hide U32At, Same;
    SameWithin(b, p, c, r, 8, 0, 4);
    SameWithin(b, p, c, r, 8, 4, 4);
    WordFrame(b, p, c, r);
    WordFrame(b, p + 4, c, r + 4);
  }

  lemma {:induction false} ItemsAreLaidOut(items: seq<Packet>)
    requires ItemsSize(items) < 0x8000_0000
    requires forall j | 0 <= j < |items| :: PacketOk(items[j]) && Acceptable(items[j])
    ensures |EncodedItems(items)| == ItemsSize(items) && ItemsAt(EncodedItems(items), 0, items)
    decreases items, 0
  {
    hide PacketAt, PacketSize, EncodedPacket, PacketOk, Acceptable, Big4, U32At;
    if |items| > 0 {
      var x, y, z := Big4(PacketSize(items[0])), EncodedPacket(items[0]), EncodedItems(items[1..]);
      BigWord(PacketSize(items[0]));
      PacketIsLaidOut(items[0]);
      ItemsAreLaidOut(items[1..]);
      Piece([], x, y + z);
      assert x + (y + z) == x + y + z;
      Piece(x, y, z);
      Piece(x + y, z, []);
      WordFrame(x, 0, x + y + z, 0);
      PacketFrame(y, 0, x + y + z, 4, items[0]);
      ItemsFrame(z, 0, x + y + z, |x + y|, items[1..]);
    }
  }

  /** Whatever is laid out as the encoded packet is, is that packet. */
  lemma EncodedOnce(k: Packet, r: Packet)
    requires Readable(k) && Acceptable(k) && PacketOk(k) && PacketSize(k) < 0x8000_0000
    requires Readable(r) && PacketAt(EncodedPacket(k), 0, r) && PacketSize(r) == |EncodedPacket(k)|
    ensures r == k
  {
    hide PacketAt, Readable, EncodedPacket;
    PacketIsLaidOut(k);
    OnePacket(EncodedPacket(k), 0, k, r);
  }

  /** The immediate time tag is sixty-three zero bits followed by a one. */
  lemma ImmediateTag()
    ensures Big8(IMMEDIATE) == [0, 0, 0, 0, 0, 0, 0, 1]
    ensures U64Bytes(IMMEDIATE) == [0, 0, 0, 0, 0, 0, 0, 1]
  {
  }

  /** An address pattern begins with a slash. */
  lemma AddressBegins(m: Message)
    ensures Addressed(m) <==> |m.path| > 0 && m.path[0] == '/' as int
  {
  }
}
