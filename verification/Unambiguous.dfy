/** The wire format is unambiguous: bytes lay out at most one readable packet of their length. */
module Unambiguous {
  import opened Bytes
  import opened Osc

  lemma OneString(b: seq<byte>, p: nat, s: seq<byte>, t: seq<byte>)
    requires StrAt(b, p, s) && StrAt(b, p, t) && CString(s) && CString(t)
    ensures s == t
  {
    NotShorter(b, p, s, t);
    NotShorter(b, p, t, s);
    forall k | 0 <= k < |s|
      ensures s[k] == t[k]
    {
      assert b[p + k] == s[k];
    }
  }

  lemma NotShorter(b: seq<byte>, p: nat, s: seq<byte>, t: seq<byte>)
    requires StrAt(b, p, s) && StrAt(b, p, t) && CString(t)
    ensures |s| >= |t|
  {
    assert b[p + |s|] == 0;
    var k := if |s| < |t| then |s| else 0;
    assert |t| > 0 ==> b[p + k] == t[k];
  }

  lemma OneBlob(b: seq<byte>, p: nat, x: seq<byte>, y: seq<byte>)
    requires Holds(b, p, x) && Holds(b, p, y) && |x| == |y|
    ensures x == y
  {
    forall k | 0 <= k < |x|
      ensures x[k] == y[k]
    {
      assert b[p + k] == x[k];
    }
  }

  lemma OneArg(b: seq<byte>, p: nat, x: Arg, y: Arg)
    requires TypeOf(x) == TypeOf(y) && ArgAt(b, p, x) && ArgAt(b, p, y)
    requires ArgOk(x) && ArgOk(y) && ReadsBack(x) && ReadsBack(y)
    ensures x == y
  {
    hide U32At, U64At, StrAt, StrSize, Holds;
    match x
    case Str(s) => OneString(b, p, s, y.s);
    case Symbol(s) => OneString(b, p, s, y.y);
    case Blob(d) => OneBlob(b, p + 4, d, y.b);
    case Midi(m) => OneBlob(b, p, m, y.m);
    case _ =>
  }

  lemma {:induction false} OneArgList(b: seq<byte>, p: nat, xs: seq<Arg>, ys: seq<Arg>)
    requires |xs| == |ys| && forall k | 0 <= k < |xs| :: TypeOf(xs[k]) == TypeOf(ys[k])
    requires ArgsAt(b, p, xs) && ArgsAt(b, p, ys)
    requires forall k | 0 <= k < |xs| :: ArgOk(xs[k]) && ArgOk(ys[k]) && ReadsBack(xs[k]) && ReadsBack(ys[k])
    ensures xs == ys
    decreases |xs|
  {
    hide ArgAt, ArgSize, ArgOk, ReadsBack;
    if |xs| > 0 {
      OneArg(b, p, xs[0], ys[0]);
      OneArgList(b, p + ArgSize(xs[0]), xs[1..], ys[1..]);
      assert xs == [xs[0]] + xs[1..] && ys == [ys[0]] + ys[1..];
    }
  }

  lemma OneMessage(b: seq<byte>, p: nat, x: Message, y: Message)
    requires MsgAt(b, p, x) && MsgAt(b, p, y)
    requires MessageOk(x) && MessageOk(y) && AllReadBack(x.args) && AllReadBack(y.args)
    ensures x == y
  {
    hide StrAt, StrSize, ArgsAt, ArgOk, ReadsBack;
    var f, g := Format(x.args), Format(y.args);
    OneString(b, p, x.path, y.path);
    OneString(b, p + StrSize(x.path), f, g);
    assert |x.args| == |y.args|;
    forall k | 0 <= k < |x.args|
      ensures TypeOf(x.args[k]) == TypeOf(y.args[k])
    {
      assert f[k + 1] == TypeOf(x.args[k]) && g[k + 1] == TypeOf(y.args[k]);
    }
    OneArgList(b, p + HeadSize(x), x.args, y.args);
  }

  /** An address that fills the bundle tag's bytes is that tag. */
  lemma TagAsString(b: seq<byte>, p: nat, s: seq<byte>)
    requires CString(s) && StrAt(b, p, s) && Holds(b, p, BUNDLE_TAG)
    ensures s + [0] == BUNDLE_TAG
  {
    var t := BUNDLE_TAG[..7];
    assert BUNDLE_TAG == t + [0];
    assert b[p + 7] == BUNDLE_TAG[7] == 0;
    OneString(b, p, s, t);
  }

  /** The first bytes tell a bundle from a message, and whether the message's address starts with a slash. */
  lemma StartsWith(b: seq<byte>, p: nat, k: Packet)
    requires PacketAt(b, p, k) && Readable(k)
    ensures p + 8 <= |b|
    ensures Holds(b, p, BUNDLE_TAG) <==> k.Bundle?
    ensures b[p] == SLASH <==> k.Single? && Addressed(k.msg)
    ensures k.Single? ==>
              && MessageOk(k.msg) && AllReadBack(k.msg.args)
              && MsgAt(b, p, k.msg) && PacketSize(k) == MsgSize(k.msg)
  {
    match k
    case Single(m) =>
      if Holds(b, p, BUNDLE_TAG) { TagAsString(b, p, m.path); }
      if |m.path| > 0 { assert b[p + 0] == m.path[0]; }
    case Bundle(t, items) =>
      assert b[p + 0] == BUNDLE_TAG[0];
  }

  /** Two readable packets of the same size that lie at the same bytes are the same packet. */
  lemma {:induction false} OnePacket(b: seq<byte>, p: nat, x: Packet, y: Packet)
    requires PacketAt(b, p, x) && PacketAt(b, p, y) && PacketSize(x) == PacketSize(y)
    requires Readable(x) && Readable(y)
    ensures x == y
    decreases x, 1
  {
    hide MsgAt, ItemsAt, U64At, Holds, MsgSize, MessageOk, AllReadBack;
    StartsWith(b, p, x);
    StartsWith(b, p, y);
    if x.Single? {
      OneMessage(b, p, x.msg, y.msg);
    } else {
      OneItemList(b, p + 16, x.items, y.items);
    }
  }

  lemma {:induction false} OneItemList(b: seq<byte>, p: nat, xs: seq<Packet>, ys: seq<Packet>)
    requires ItemsAt(b, p, xs) && ItemsAt(b, p, ys) && ItemsSize(xs) == ItemsSize(ys)
    requires forall j | 0 <= j < |xs| :: Readable(xs[j])
    requires forall j | 0 <= j < |ys| :: Readable(ys[j])
    ensures xs == ys
    decreases xs, 0
  {
    hide PacketAt, PacketSize, U32At, Readable;
    if |xs| > 0 && |ys| > 0 {
      OnePacket(b, p + 4, xs[0], ys[0]);
      OneItemList(b, p + 4 + PacketSize(xs[0]), xs[1..], ys[1..]);
      assert xs == [xs[0]] + xs[1..] && ys == [ys[0]] + ys[1..];
    }
  }
}
