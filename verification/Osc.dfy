/** OSC 1.0 messages and bundles, their sizes, and how their bytes lie in a buffer. */
module Osc {
  import opened Bytes

  type i8 = c: int | -0x80 <= c < 0x80 witness 0

  /** An argument; floats and doubles are kept as the words that carry them. */
  datatype Arg =
    | Int32(i: i32)
    | Float(f: u32)
    | Str(s: seq<byte>)
    | Blob(b: seq<byte>)
    | True
    | False
    | Nil
    | Impulse
    | Int64(h: i64)
    | Double(d: u64)
    | Timetag(t: u64)
    | Symbol(y: seq<byte>)
    | Char(c: i8)
    | Midi(m: seq<byte>)
    | Rgba(red: byte, green: byte, blue: byte, alpha: byte)

  datatype Message = Message(path: seq<byte>, args: seq<Arg>)

  datatype Packet = Single(msg: Message) | Bundle(timetag: u64, items: seq<Packet>)

  const IMMEDIATE: u64 := 1
  const COMMA: byte := 44
  const SLASH: byte := 47
  const BUNDLE_TAG: seq<byte> := [35, 98, 117, 110, 100, 108, 101, 0]  // "#bundle"

  const TYPE_INT32: byte := 105
  const TYPE_FLOAT: byte := 102
  const TYPE_STRING: byte := 115
  const TYPE_BLOB: byte := 98
  const TYPE_TRUE: byte := 84
  const TYPE_FALSE: byte := 70
  const TYPE_NIL: byte := 78
  const TYPE_IMPULSE: byte := 73
  const TYPE_INT64: byte := 104
  const TYPE_DOUBLE: byte := 100
  const TYPE_TIMETAG: byte := 116
  const TYPE_SYMBOL: byte := 83
  const TYPE_CHAR: byte := 99
  const TYPE_MIDI: byte := 109
  const TYPE_RGBA: byte := 114

  function TypeOf(a: Arg): (t: byte)
    ensures t != 0
  {
    match a
    case Int32(_) => TYPE_INT32
    case Float(_) => TYPE_FLOAT
    case Str(_) => TYPE_STRING
    case Blob(_) => TYPE_BLOB
    case True => TYPE_TRUE
    case False => TYPE_FALSE
    case Nil => TYPE_NIL
    case Impulse => TYPE_IMPULSE
    case Int64(_) => TYPE_INT64
    case Double(_) => TYPE_DOUBLE
    case Timetag(_) => TYPE_TIMETAG
    case Symbol(_) => TYPE_SYMBOL
    case Char(_) => TYPE_CHAR
    case Midi(_) => TYPE_MIDI
    case Rgba(_, _, _, _) => TYPE_RGBA
  }

  function Types(args: seq<Arg>): seq<byte> { seq(|args|, k requires 0 <= k < |args| => TypeOf(args[k])) }

  function Format(args: seq<Arg>): seq<byte> { [COMMA] + Types(args) }

  // ---- what a C caller can pass, and what the writer accepts ----

  predicate CString(s: seq<byte>) { forall k | 0 <= k < |s| :: s[k] != 0 }

  predicate ArgOk(a: Arg) {
    match a
    case Str(s) => CString(s)
    case Symbol(y) => CString(y)
    case Blob(b) => |b| < 0x8000_0000
    case _ => true
  }

  predicate MidiFits(a: Arg) { a.Midi? ==> |a.m| <= 4 }

  /** Short MIDI data is padded with whatever the buffer held, so only four bytes can be read back. */
  predicate ReadsBack(a: Arg) { a.Midi? ==> |a.m| == 4 }

  predicate MessageOk(m: Message) {
    CString(m.path) && forall k | 0 <= k < |m.args| :: ArgOk(m.args[k])
  }

  /** The reader takes a packet for a message if its address starts with a slash. */
  predicate Addressed(m: Message) { |m.path| > 0 && m.path[0] == SLASH }

  predicate AllMidiFit(args: seq<Arg>) { forall k | 0 <= k < |args| :: MidiFits(args[k]) }

  predicate AllReadBack(args: seq<Arg>) { forall k | 0 <= k < |args| :: ReadsBack(args[k]) }

  predicate PacketOk(k: Packet) {
    match k
    case Single(m) => MessageOk(m)
    case Bundle(_, items) => forall j | 0 <= j < |items| :: PacketOk(items[j])
  }

  /** What the writer accepts given room: no empty bundle, no oversized MIDI data. */
  predicate Acceptable(k: Packet) {
    match k
    case Single(m) => AllMidiFit(m.args)
    case Bundle(_, items) => |items| > 0 && forall j | 0 <= j < |items| :: Acceptable(items[j])
  }

  /** What can be read back: only a message addressed to the bundle tag itself would be taken for a bundle. */
  predicate Readable(k: Packet) {
    match k
    case Single(m) => MessageOk(m) && AllReadBack(m.args) && m.path + [0] != BUNDLE_TAG
    case Bundle(_, items) => forall j | 0 <= j < |items| :: Readable(items[j])
  }

  // ---- sizes ----

  function StrSize(s: seq<byte>): (n: nat)
    ensures n > |s| && n % 4 == 0
  {
    Pad4(|s| + 1)
  }

  function ArgSize(a: Arg): (n: nat)
    ensures n % 4 == 0
  {
    match a
    case Str(s) => StrSize(s)
    case Symbol(y) => StrSize(y)
    case Blob(b) => 4 + Pad4(|b|)
    case True => 0
    case False => 0
    case Nil => 0
    case Impulse => 0
    case Int64(_) => 8
    case Double(_) => 8
    case Timetag(_) => 8
    case _ => 4
  }

  /** Types that carry a value, and the size the reader reports for it: strings count their NUL, and a blob its
      bytes without padding. */
  predicate HasValue(a: Arg) { !(a.True? || a.False? || a.Nil? || a.Impulse?) }

  function ValueSize(a: Arg): nat {
    match a
    case Str(s) => |s| + 1
    case Symbol(y) => |y| + 1
    case Blob(b) => |b|
    case Midi(_) => 4
    case _ => ArgSize(a)
  }

  lemma Fours(n: nat, m: nat)
    requires n % 4 == 0 && m % 4 == 0
    ensures (n + m) % 4 == 0 && (4 + n + m) % 4 == 0
  {
  }

  function ArgsSize(args: seq<Arg>): (n: nat)
    ensures n % 4 == 0
  {
    hide ArgSize;
    if |args| == 0 then 0
    else
      var n, m := ArgSize(args[0]), ArgsSize(args[1..]);
      Fours(n, m);
      n + m
  }

  /** Where the arguments start, behind the path and the format. */
  function HeadSize(m: Message): nat { StrSize(m.path) + StrSize(Format(m.args)) }

  function MsgSize(m: Message): (n: nat)
    ensures n % 4 == 0 && n >= 8
  {
    HeadSize(m) + ArgsSize(m.args)
  }

  function PacketSize(k: Packet): (n: nat)
    ensures n % 4 == 0 && n >= 8
    ensures k.Bundle? ==> n >= 16
  {
    match k
    case Single(m) => MsgSize(m)
    case Bundle(_, items) => 16 + ItemsSize(items)
  }

  function ItemsSize(items: seq<Packet>): (n: nat)
    ensures n % 4 == 0
    ensures n == 0 <==> |items| == 0
  {
    hide MsgSize;
    if |items| == 0 then 0
    else
      var n, m := PacketSize(items[0]), ItemsSize(items[1..]);
      Fours(n, m);
      4 + n + m
  }

  // ---- layout ----

  predicate StrAt(b: seq<byte>, p: nat, s: seq<byte>) {
    && p + StrSize(s) <= |b|
    && Holds(b, p, s)
    && forall i | p + |s| <= i < p + StrSize(s) :: b[i] == 0
  }

  predicate ArgAt(b: seq<byte>, p: nat, a: Arg) {
    && p + ArgSize(a) <= |b|
    && match a
       case Int32(i) => U32At(b, p) == U32Of(i)
       case Float(f) => U32At(b, p) == f
       case Str(s) => StrAt(b, p, s)
       case Symbol(y) => StrAt(b, p, y)
       case Blob(d) => U32At(b, p) == |d| && Holds(b, p + 4, d)
       case True => true
       case False => true
       case Nil => true
       case Impulse => true
       case Int64(h) => U64At(b, p) == U64Of(h)
       case Double(d) => U64At(b, p) == d
       case Timetag(t) => U64At(b, p) == t
       case Char(c) => U32At(b, p) == U32Of(c)
       case Midi(m) => Holds(b, p, m)
       case Rgba(r, g, bl, al) => b[p] == r && b[p + 1] == g && b[p + 2] == bl && b[p + 3] == al
  }

  predicate ArgsAt(b: seq<byte>, p: nat, args: seq<Arg>)
    decreases |args|
  {
    |args| == 0 || (ArgAt(b, p, args[0]) && ArgsAt(b, p + ArgSize(args[0]), args[1..]))
  }

  predicate MsgAt(b: seq<byte>, p: nat, m: Message) {
    && p + MsgSize(m) <= |b|
    && StrAt(b, p, m.path)
    && StrAt(b, p + StrSize(m.path), Format(m.args))
    && ArgsAt(b, p + HeadSize(m), m.args)
  }

  predicate PacketAt(b: seq<byte>, p: nat, k: Packet)
    decreases k
  {
    && p + PacketSize(k) <= |b| && PacketSize(k) < 0x8000_0000
    && match k
       case Single(m) => MsgAt(b, p, m)
       case Bundle(t, items) =>
         Holds(b, p, BUNDLE_TAG) && U64At(b, p + 8) == t && ItemsAt(b, p + 16, items)
  }

  predicate ItemsAt(b: seq<byte>, p: nat, items: seq<Packet>)
    decreases items
  {
    |items| == 0 ||
    (&& p + 4 <= |b| && U32At(b, p) == PacketSize(items[0])
     && PacketAt(b, p + 4, items[0])
     && ItemsAt(b, p + 4 + PacketSize(items[0]), items[1..]))
  }

  // ---- layout depends on nothing but its own bytes ----

  /** The `n` bytes of `b` at `p` are those of `c` at `r`. */
  predicate Same(b: seq<byte>, p: nat, c: seq<byte>, r: nat, n: nat) {
    && p + n <= |b| && r + n <= |c|
    && (forall i | p <= i < p + n :: b[i] == c[i - p + r])
    && (forall j | r <= j < r + n :: c[j] == b[j - r + p])
  }

  lemma SameWithin(b: seq<byte>, p: nat, c: seq<byte>, r: nat, n: nat, off: nat, m: nat)
    requires Same(b, p, c, r, n) && off + m <= n
    ensures Same(b, p + off, c, r + off, m) && p + n <= |b| && r + n <= |c|
  {
  }

  lemma WordFrame(b: seq<byte>, p: nat, c: seq<byte>, r: nat)
    requires Same(b, p, c, r, 4)
    ensures p + 4 <= |b| && r + 4 <= |c| && U32At(b, p) == U32At(c, r)
  {
  }

  lemma StrFrame(b: seq<byte>, p: nat, c: seq<byte>, r: nat, s: seq<byte>)
    requires StrAt(b, p, s) && Same(b, p, c, r, StrSize(s))
    ensures StrAt(c, r, s)
  {
  }

  lemma ArgFrame(b: seq<byte>, p: nat, c: seq<byte>, r: nat, a: Arg)
    requires ArgAt(b, p, a) && Same(b, p, c, r, ArgSize(a))
    requires MidiFits(a)
    ensures ArgAt(c, r, a)
  {
    match a
    case Str(s) => StrFrame(b, p, c, r, s);
    case Symbol(y) => StrFrame(b, p, c, r, y);
    case _ =>
  }

  lemma {:induction false} ArgsFrame(b: seq<byte>, p: nat, c: seq<byte>, r: nat, args: seq<Arg>)
    requires ArgsAt(b, p, args) && Same(b, p, c, r, ArgsSize(args))
    requires AllMidiFit(args)
    ensures ArgsAt(c, r, args)
    decreases |args|
  {
    hide ArgAt;
    if |args| > 0 {
      ArgFrame(b, p, c, r, args[0]);
      ArgsFrame(b, p + ArgSize(args[0]), c, r + ArgSize(args[0]), args[1..]);
    }
  }

  lemma MsgFrame(b: seq<byte>, p: nat, c: seq<byte>, r: nat, m: Message)
    requires MsgAt(b, p, m) && Same(b, p, c, r, MsgSize(m))
    requires AllMidiFit(m.args)
    ensures MsgAt(c, r, m)
  {
    hide StrAt, StrSize, ArgsAt, Format;
    StrFrame(b, p, c, r, m.path);
    StrFrame(b, p + StrSize(m.path), c, r + StrSize(m.path), Format(m.args));
    ArgsFrame(b, p + HeadSize(m), c, r + HeadSize(m), m.args);
  }

  lemma {:induction false} PacketFrame(b: seq<byte>, p: nat, c: seq<byte>, r: nat, k: Packet)
    requires PacketAt(b, p, k) && Same(b, p, c, r, PacketSize(k))
    requires Acceptable(k)
    ensures PacketAt(c, r, k)
    decreases k, 1
  {
    hide MsgAt, ItemsAt, MsgSize, ItemsSize, Holds, U64At, Same;
    SameWithin(b, p, c, r, PacketSize(k), 0, 0);
    match k
    case Single(m) => MsgFrame(b, p, c, r, m);
    case Bundle(t, items) =>
      SameWithin(b, p, c, r, PacketSize(k), 0, 16);
      SameWithin(b, p, c, r, PacketSize(k), 16, ItemsSize(items));
      TagFrame(b, p, c, r);
      ItemsFrame(b, p + 16, c, r + 16, items);
  }

  lemma TagFrame(b: seq<byte>, p: nat, c: seq<byte>, r: nat)
    requires Same(b, p, c, r, 16)
    ensures p + 16 <= |b| && r + 16 <= |c| && U64At(b, p + 8) == U64At(c, r + 8)
    ensures Holds(b, p, BUNDLE_TAG) ==> Holds(c, r, BUNDLE_TAG)
  {
  }

  lemma {:induction false} ItemsFrame(b: seq<byte>, p: nat, c: seq<byte>, r: nat, items: seq<Packet>)
    requires ItemsAt(b, p, items) && Same(b, p, c, r, ItemsSize(items))
    requires forall j | 0 <= j < |items| :: Acceptable(items[j])
    ensures ItemsAt(c, r, items)
    decreases items, 0
  {
    hide PacketAt, PacketSize, U32At, Same;
    if |items| > 0 {
      var n := 4 + PacketSize(items[0]);
      SameWithin(b, p, c, r, ItemsSize(items), 0, 4);
      SameWithin(b, p, c, r, ItemsSize(items), 4, n - 4);
      SameWithin(b, p, c, r, ItemsSize(items), n, ItemsSize(items[1..]));
      WordFrame(b, p, c, r);
      PacketFrame(b, p + 4, c, r + 4, items[0]);
      ItemsFrame(b, p + n, c, r + n, items[1..]);
    }
  }

  // ---- taking sequences apart at the end ----

  lemma {:induction false} ArgsSizeAppend(x: seq<Arg>, y: seq<Arg>)
    ensures ArgsSize(x + y) == ArgsSize(x) + ArgsSize(y)
  {
    if |x| == 0 {
      assert x + y == y;
    } else {
      ArgsSizeAppend(x[1..], y);
      HeadTail(x, y);
    }
  }

  lemma {:induction false} ItemsSizeAppend(x: seq<Packet>, y: seq<Packet>)
    ensures ItemsSize(x + y) == ItemsSize(x) + ItemsSize(y)
  {
    if |x| == 0 {
      assert x + y == y;
    } else {
      ItemsSizeAppend(x[1..], y);
      HeadTail(x, y);
    }
  }

  lemma {:induction false} ArgsAtAppend(b: seq<byte>, p: nat, x: seq<Arg>, y: seq<Arg>)
    ensures ArgsAt(b, p, x + y) <==> ArgsAt(b, p, x) && ArgsAt(b, p + ArgsSize(x), y)
    decreases |x|
  {
    hide ArgAt;
    if |x| == 0 {
      assert x + y == y;
    } else {
      ArgsAtAppend(b, p + ArgSize(x[0]), x[1..], y);
      HeadTail(x, y);
    }
  }

  lemma {:induction false} ItemsAtAppend(b: seq<byte>, p: nat, x: seq<Packet>, y: seq<Packet>)
    ensures ItemsAt(b, p, x + y) <==> ItemsAt(b, p, x) && ItemsAt(b, p + ItemsSize(x), y)
    decreases |x|
  {
    hide PacketAt;
    if |x| == 0 {
      assert x + y == y;
    } else {
      ItemsAtAppend(b, p + 4 + PacketSize(x[0]), x[1..], y);
      HeadTail(x, y);
    }
  }

  /** The argument at `k` lies behind the sizes of those before it. */
  lemma ArgAtIndex(b: seq<byte>, p: nat, args: seq<Arg>, k: nat)
    requires k < |args| && ArgsAt(b, p, args)
    ensures ArgAt(b, p + ArgsSize(args[..k]), args[k])
    ensures ArgsSize(args[..k + 1]) == ArgsSize(args[..k]) + ArgSize(args[k])
    ensures ArgsSize(args[..k + 1]) <= ArgsSize(args)
  {
    hide ArgAt;
    assert args == args[..k] + args[k..] && args[k..] == [args[k]] + args[k + 1..];
    ArgsAtAppend(b, p, args[..k], args[k..]);
    ArgsSizeAppend(args[..k], args[k..]);
    assert args[..k + 1] == args[..k] + [args[k]];
    ArgsSizeAppend(args[..k], [args[k]]);
    OneArg(args[k]);
    assert args[k..][1..] == args[k + 1..];
  }

  lemma OneArg(a: Arg)
    ensures ArgsSize([a]) == ArgSize(a)
  {
    assert [a][1..] == [];
  }
}
