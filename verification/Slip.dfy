/** SLIP framing (RFC 1055) in its double-ended form: what a frame is, and what a decoder makes of any bytes. */
module Slip {
  import opened Bytes

  const END: byte := 192
  const ESC: byte := 219
  const END_REPLACE: byte := 220
  const ESC_REPLACE: byte := 221

  predicate Special(b: byte) { b == END || b == ESC }

  function EscapeByte(b: byte): (r: seq<byte>)
    ensures |r| == if Special(b) then 2 else 1
  {
    if b == END then [ESC, END_REPLACE] else if b == ESC then [ESC, ESC_REPLACE] else [b]
  }

  function Escape(p: seq<byte>): seq<byte> {
    if |p| == 0 then [] else EscapeByte(p[0]) + Escape(p[1..])
  }

  function Specials(p: seq<byte>): nat {
    if |p| == 0 then 0 else (if Special(p[0]) then 1 else 0) + Specials(p[1..])
  }

  function Frame(p: seq<byte>): seq<byte> { [END] + Escape(p) + [END] }

  /** The frames of several packets, one after the other. */
  function Frames(ps: seq<seq<byte>>): seq<byte> {
    if |ps| == 0 then [] else Frame(ps[0]) + Frames(ps[1..])
  }

  /** What a scan up to the next closing END finds: nothing whole, or `used` bytes that unescape to `out`. */
  datatype Scanned = Open | Closed(used: nat, out: seq<byte>)

  /** What an escaped byte stands for; an unknown escape is dropped. */
  function Unescape(b: byte): seq<byte> {
    if b == END_REPLACE then [END] else if b == ESC_REPLACE then [ESC] else []
  }

  function Then(n: nat, out: seq<byte>, s: Scanned): Scanned {
    if s.Open? then Open else Closed(n + s.used, out + s.out)
  }

  function Scan(s: seq<byte>): (r: Scanned)
    ensures r.Closed? ==> |r.out| < r.used <= |s|
  {
    if |s| == 0 then Open
    else if s[0] == ESC then
      if |s| == 1 then Open else Then(2, Unescape(s[1]), Scan(s[2..]))
    else if s[0] == END then Closed(1, [])
    else Then(1, [s[0]], Scan(s[1..]))
  }

  /** What one call of the decoder reports: the bytes it parsed, 0 if no frame is whole, and the packet,
      empty unless the frame also began with END. */
  function Decode(s: seq<byte>): (r: (nat, seq<byte>))
    ensures |r.1| <= r.0 <= |s|
  {
    if |s| > 0 && s[0] == END then
      var r := Scan(s[1..]);
      if r.Open? then (0, []) else (1 + r.used, r.out)
    else
      var r := Scan(s);
      if r.Open? then (0, []) else (r.used, [])
  }

  /** What a scan has unescaped when it stops, at the closing END or where the bytes end. */
  function Partial(s: seq<byte>): (out: seq<byte>)
    ensures |out| <= |s|
  {
    if |s| == 0 || s[0] == END then []
    else if s[0] == ESC then
      if |s| == 1 then [] else Unescape(s[1]) + Partial(s[2..])
    else [s[0]] + Partial(s[1..])
  }

  /** What a call of the decoder leaves of these bytes: in front, what it unescaped; the others as they were. */
  function Left(s: seq<byte>): (r: seq<byte>)
    ensures |r| == |s|
  {
    Overlay(s, Partial(if |s| > 0 && s[0] == END then s[1..] else s))
  }

  function Overlay(s: seq<byte>, out: seq<byte>): (r: seq<byte>)
    requires |out| <= |s|
    ensures |r| == |s|
  {
    out + s[|out|..]
  }

  // ---- the shape of a frame ----

  lemma {:induction false} EscapeAppend(p: seq<byte>, q: seq<byte>)
    ensures Escape(p + q) == Escape(p) + Escape(q)
  {
    if |p| == 0 {
      assert p + q == q;
    } else {
      EscapeAppend(p[1..], q);
      HeadTail(p, q);
      assert EscapeByte(p[0]) + (Escape(p[1..]) + Escape(q)) == Escape(p) + Escape(q);
    }
  }

  /** Escaping up to and including the byte at `k`. */
  lemma EscapeSnoc(p: seq<byte>, k: nat)
    requires k < |p|
    ensures Escape(p[..k + 1]) == Escape(p[..k]) + EscapeByte(p[k])
  {
    EscapeAppend(p[..k], [p[k]]);
    assert p[..k + 1] == p[..k] + [p[k]];
    assert [p[k]][1..] == [];
  }

  lemma {:induction false} EscapeLength(p: seq<byte>)
    ensures |Escape(p)| == |p| + Specials(p) && Specials(p) <= |p|
  {
    if |p| > 0 { EscapeLength(p[1..]); }
  }

  lemma {:induction false} EscapeHasNoEnd(p: seq<byte>)
    ensures END !in Escape(p)
  {
    if |p| > 0 { EscapeHasNoEnd(p[1..]); }
  }

  /** A frame is two bytes longer than its packet plus one for each END or ESC in it, at most double plus
      two, and END stands at its two ends only. */
  lemma FrameShape(p: seq<byte>)
    ensures |Frame(p)| == |p| + 2 + Specials(p) <= 2 * |p| + 2
    ensures forall i | 0 <= i < |Frame(p)| :: Frame(p)[i] == END <==> i == 0 || i == |Frame(p)| - 1
  {
    EscapeLength(p);
    EscapeHasNoEnd(p);
    forall i | 0 < i < |Frame(p)| - 1
      ensures Frame(p)[i] != END
    {
      assert Frame(p)[i] == Escape(p)[i - 1];
    }
  }

  /** A frame in the numbers of RFC 1055: 192 at both ends, 219 220 for a 192 of the packet, 219 221 for a 219,
      and every other byte as it is. */
  lemma FrameNumerals(p: seq<byte>, k: nat)
    requires k < |p|
    ensures var f, at := Frame(p), 1 + |Escape(p[..k])|;
            && k < at && at + 1 < |f|
            && f[0] == 192 && f[|f| - 1] == 192
            && (p[k] == 192 ==> f[at] == 219 && f[at + 1] == 220)
            && (p[k] == 219 ==> f[at] == 219 && f[at + 1] == 221)
            && (p[k] != 192 && p[k] != 219 ==> f[at] == p[k])
  {
    hide Escape;
    var e, m := Escape(p[..k]), EscapeByte(p[k]);
    EscapeSnoc(p, k);
    EscapeAppend(p[..k + 1], p[k + 1..]);
    EscapeLength(p[..k]);
    assert p == p[..k + 1] + p[k + 1..];
    assert Frame(p) == [END] + e + (m + Escape(p[k + 1..]) + [END]);
  }

  /** What single bytes look like on the wire. */
  lemma FramesOfBytes(b: byte)
    ensures Frame([192]) == [192, 219, 220, 192]
    ensures Frame([219]) == [192, 219, 221, 192]
    ensures b != 192 && b != 219 ==> Frame([b]) == [192, b, 192]
  {
    assert Escape([192]) == EscapeByte(192) + [] && Escape([219]) == EscapeByte(219) + [];
    assert Escape([b]) == EscapeByte(b) + [];
  }

  /** An escape of anything else is dropped together with what it escapes. */
  lemma UnknownEscape(b: byte, c: byte)
    requires b != 220 && b != 221 && c != 192 && c != 219
    ensures Decode([192, 219, b, c, 192]) == (5, [c])
  {
    var s: seq<byte> := [192, 219, b, c, 192];
    assert s[1..][2..] == [c, 192] && [c, 192][1..] == [192];
    assert Scan([192]) == Closed(1, []);
    assert Scan([c, 192]) == Closed(2, [c]);
    assert Scan(s[1..]) == Closed(4, [c]);
  }

  // ---- round trips ----

  lemma {:induction false} ScanEscaped(p: seq<byte>, rest: seq<byte>)
    ensures Scan(Escape(p) + [END] + rest) == Closed(|Escape(p)| + 1, p)
  {
    var s := Escape(p) + [END] + rest;
    if |p| > 0 {
      var tail := Escape(p[1..]) + [END] + rest;
      ScanEscaped(p[1..], rest);
      assert s == EscapeByte(p[0]) + tail;
      if Special(p[0]) {
        assert s[2..] == tail;
      } else {
        assert s[1..] == tail;
      }
      assert [p[0]] + p[1..] == p;
    }
  }

  /** Decoding undoes framing and stops right behind the frame. */
  lemma DecodeFrame(p: seq<byte>, rest: seq<byte>)
    ensures Decode(Frame(p) + rest) == (|Frame(p)|, p)
  {
    var s := Frame(p) + rest;
    ScanEscaped(p, rest);
    assert s[1..] == Escape(p) + [END] + rest;
  }

  /** What the decode loop delivers from a buffer, and how many bytes it parses. */
  function Split(s: seq<byte>): (r: (seq<seq<byte>>, nat))
    ensures r.1 <= |s|
    decreases |s|
  {
    var (parsed, p) := Decode(s);
    if parsed == 0 then ([], 0)
    else
      var r := Split(s[parsed..]);
      ((if |p| > 0 then [p] else []) + r.0, parsed + r.1)
  }

  lemma SplitStep(s: seq<byte>, head: seq<byte>, tail: seq<byte>, p: seq<byte>)
    requires s == head + tail && |head| > 0 && Decode(s) == (|head|, p)
    ensures Split(s) == ((if |p| > 0 then [p] else []) + Split(tail).0, |head| + Split(tail).1)
  {
    hide Decode;
    assert s[|head|..] == tail;
  }

  /** Whole frames come out packet by packet, ahead of whatever follows them. */
  lemma {:induction false} SplitFrames(ps: seq<seq<byte>>, rest: seq<byte>)
    requires forall p | p in ps :: |p| > 0
    ensures Split(Frames(ps) + rest) == (ps + Split(rest).0, |Frames(ps)| + Split(rest).1)
  {
    hide Decode, Frame, Split;
    if |ps| == 0 {
      assert Frames(ps) + rest == rest && ps + Split(rest).0 == Split(rest).0;
    } else {
      var tail := Frames(ps[1..]) + rest;
      SplitFrames(ps[1..], rest);
      DecodeFrame(ps[0], tail);
      FrameEnds(ps[0]);
      assert Frames(ps) + rest == Frame(ps[0]) + tail;
      SplitStep(Frames(ps) + rest, Frame(ps[0]), tail, ps[0]);
      HeadTail(ps, Split(rest).0);
    }
  }

  lemma FrameEnds(p: seq<byte>)
    ensures |Frame(p)| >= 2 && Frame(p)[0] == END && Frame(p)[|Frame(p)| - 1..] == [END]
    ensures |p| > 0 ==> |Frame(p)| > 2
  {
    EscapeLength(p);
  }

  /** A buffer holding whole frames only is consumed completely. */
  lemma SplitWholeFrames(ps: seq<seq<byte>>)
    requires forall p | p in ps :: |p| > 0
    ensures Split(Frames(ps)) == (ps, |Frames(ps)|)
  {
    hide Frames, Decode;
    SplitFrames(ps, []);
    assert Frames(ps) + [] == Frames(ps) && ps + [] == ps;
    assert Decode([]) == (0, []) by { DecodeEmpty(); }
  }

  lemma DecodeEmpty()
    ensures Decode([]) == (0, [])
  {
  }

  /** How many bytes the decode loop parses before it comes to the packet at `k`. */
  function Parsed(s: seq<byte>, k: nat): (n: nat)
    ensures n <= |s|
    decreases |s|
  {
    var (parsed, p) := Decode(s);
    if parsed == 0 || (|p| > 0 && k == 0) then 0
    else parsed + Parsed(s[parsed..], if |p| > 0 then k - 1 else k)
  }

  lemma {:induction false} ParsedAll(s: seq<byte>)
    ensures Parsed(s, |Split(s).0|) == Split(s).1
    decreases |s|
  {
    hide Decode;
    var (parsed, p) := Decode(s);
    if parsed > 0 { ParsedAll(s[parsed..]); }
  }

  // ---- resynchronisation ----

  /** Scanning any proper tail of an escaped packet still finds the closing END, even from inside a pair. */
  lemma {:induction false} ScanTail(p: seq<byte>, k: nat, rest: seq<byte>)
    requires k <= |Escape(p)|
    ensures var t := Escape(p)[k..] + [END] + rest;
            Scan(t).Closed? && Scan(t).used == |Escape(p)| - k + 1
  {
    hide Scan;
    var e := Escape(p);
    if k == 0 {
      ScanEscaped(p, rest);
      assert e[0..] == e;
    } else {
      var m := |EscapeByte(p[0])|;
      if k >= m {
        ScanTail(p[1..], k - m, rest);
        assert e[k..] == Escape(p[1..])[k - m..];
      } else {
        ScanInsidePair(p, rest);
      }
    }
  }

  lemma ScanInsidePair(p: seq<byte>, rest: seq<byte>)
    requires |p| > 0 && Special(p[0])
    ensures var t := Escape(p)[1..] + [END] + rest;
            Scan(t).Closed? && Scan(t).used == |Escape(p)|
  {
    hide Scan, Escape;
    var e := Escape(p[1..]);
    var c := EscapeByte(p[0])[1];
    EscapeFirst(p);
    ScanEscaped(p[1..], rest);
    ScanPlain(c, e + [END] + rest);
    assert Escape(p)[1..] + [END] + rest == [c] + (e + [END] + rest);
  }

  lemma EscapeFirst(p: seq<byte>)
    requires |p| > 0
    ensures Escape(p) == EscapeByte(p[0]) + Escape(p[1..])
  {
  }

  lemma ScanPlain(b: byte, t: seq<byte>)
    requires b != END && b != ESC
    ensures Scan([b] + t) == Then(1, [b], Scan(t))
  {
    assert ([b] + t)[1..] == t;
  }

  lemma DropTail(p: seq<byte>, k: nat, rest: seq<byte>)
    requires 0 < k < |Frame(p)| - 1
    ensures Decode(Frame(p)[k..] + rest) == (|Frame(p)| - k, [])
  {
    hide Scan, Escape;
    var s := Frame(p)[k..] + rest;
    EscapeHasNoEnd(p);
    ScanTail(p, k - 1, rest);
    assert s == Escape(p)[k - 1..] + [END] + rest;
    assert s[0] == Escape(p)[k - 1];
  }

  /** Starting inside a frame, with at least one byte before its closing END, loses that frame only: the
      remainder is parsed and dropped and every whole frame behind it is delivered. */
  lemma Resynchronise(p: seq<byte>, k: nat, ps: seq<seq<byte>>)
    requires 0 < k < |Frame(p)| - 1
    requires forall q | q in ps :: |q| > 0
    ensures Decode(Frame(p)[k..] + Frames(ps)) == (|Frame(p)| - k, [])
    ensures Split(Frame(p)[k..] + Frames(ps)) == (ps, |Frame(p)| - k + |Frames(ps)|)
  {
    hide Frame, Frames, Decode, Split;
    DropTail(p, k, Frames(ps));
    SplitStep(Frame(p)[k..] + Frames(ps), Frame(p)[k..], Frames(ps), []);
    SplitWholeFrames(ps);
    assert [] + ps == ps;
  }

  lemma LoneEnd(f: seq<byte>, rest: seq<byte>)
    requires |f| > 0 && f[0] == END
    ensures [END] + (f + rest) == [END, END] + (f[1..] + rest)
    ensures Decode([END, END] + (f[1..] + rest)) == (2, [])
  {
    var s := [END, END] + (f[1..] + rest);
    assert s[1..][0] == END;
    assert Scan(s[1..]) == Closed(1, []);
  }

  /** A lone closing END is taken for an opening one: the next frame's own END closes an empty packet, and
      the packet itself is dropped as a remainder. Together with Resynchronise this tells exactly from
      where in a frame the decoder recovers without losing the next one. */
  lemma LoneEndLosesNext(p: seq<byte>, ps: seq<seq<byte>>)
    requires |ps| > 0 && forall q | q in ps :: |q| > 0
    ensures Frame(p)[|Frame(p)| - 1..] == [END]
    ensures Split([END] + Frames(ps)).0 == ps[1..]
  {
    hide Frame, Escape, Decode, Split, Scan;
    var f, rest := Frame(ps[0]), Frames(ps[1..]);
    FrameEnds(p);
    FrameEnds(ps[0]);
    LoneEnd(f, rest);
    SplitStep([END, END] + (f[1..] + rest), [END, END], f[1..] + rest, []);
    Resynchronise(ps[0], 1, ps[1..]);
    assert [] + ps[1..] == ps[1..];
  }

  // ---- frames cut across receives ----

  /** The scan used no fewer bytes than escaping what it found takes, and if no more, then exactly those. */
  ghost predicate Minimal(s: seq<byte>, r: Scanned) {
    r.Closed? ==>
      && |Escape(r.out)| + 1 <= r.used <= |s|
      && (r.used == |Escape(r.out)| + 1 ==> s[..r.used] == Escape(r.out) + [END])
  }

  lemma {:induction false} ScanMinimal(s: seq<byte>)
    ensures Minimal(s, Scan(s))
  {
    hide Minimal, Escape;
    if |s| == 0 {
      StopMinimal(s);
    } else if s[0] == END {
      StopMinimal(s);
    } else if s[0] != ESC {
      ScanMinimal(s[1..]);
      EscapeOne(s[0]);
      StepMinimal([s[0]], [s[0]], s[1..], Scan(s[1..]));
      assert s == [s[0]] + s[1..];
    } else if |s| == 1 {
      StopMinimal(s);
    } else {
      ScanMinimal(s[2..]);
      UnescapeThenEscape(s[1]);
      StepMinimal([ESC, s[1]], Unescape(s[1]), s[2..], Scan(s[2..]));
      assert s == [ESC, s[1]] + s[2..];
    }
  }

  lemma StopMinimal(s: seq<byte>)
    ensures Minimal(s, Open)
    ensures |s| > 0 && s[0] == END ==> Minimal(s, Closed(1, []))
  {
    if |s| > 0 { assert s[..1] == [s[0]]; }
  }

  lemma StepMinimal(head: seq<byte>, u: seq<byte>, tail: seq<byte>, r: Scanned)
    requires Minimal(tail, r)
    requires |Escape(u)| <= |head| && (|Escape(u)| == |head| ==> Escape(u) == head)
    ensures Minimal(head + tail, Then(|head|, u, r))
  {
    hide Escape;
    if r.Closed? {
      EscapeAppend(u, r.out);
      assert (head + tail)[..|head| + r.used] == head + tail[..r.used];
      assert head + (Escape(r.out) + [END]) == head + Escape(r.out) + [END];
    }
  }

  lemma EscapeOne(b: byte)
    ensures Escape([b]) == EscapeByte(b)
  {
    assert [b][1..] == [];
  }

  lemma UnescapeThenEscape(b: byte)
    ensures |Escape(Unescape(b))| <= 2
    ensures |Escape(Unescape(b))| == 2 ==> Escape(Unescape(b)) == [ESC, b]
  {
    if b == END_REPLACE { EscapeOne(END); } else if b == ESC_REPLACE { EscapeOne(ESC); }
  }

  lemma DecodeMinimal(s: seq<byte>)
    requires |Decode(s).1| > 0
    ensures var (parsed, p) := Decode(s);
            && parsed >= |Frame(p)|
            && (parsed == |Frame(p)| ==> s[..parsed] == Frame(p))
  {
    hide Scan, Escape;
    ScanMinimal(s[1..]);
    var (parsed, p) := Decode(s);
    assert s == [END] + s[1..];
    if parsed == |Frame(p)| {
      assert s[..parsed] == [END] + s[1..][..parsed - 1];
      assert Frame(p) == [END] + (Escape(p) + [END]);
    }
  }

  /** Of all buffers as long as a packet's frame, only the frame itself delivers that packet. */
  lemma {:induction false} OnlyFrameDelivers(s: seq<byte>, p: seq<byte>)
    requires |p| > 0 && p in Split(s).0
    ensures |s| >= |Frame(p)|
    ensures |s| == |Frame(p)| ==> s == Frame(p)
    decreases |s|
  {
    hide Decode, Frame;
    var (parsed, q) := Decode(s);
    if q == p {
      DecodeMinimal(s);
      assert s[..|s|] == s;
    } else {
      OnlyFrameDelivers(s[parsed..], p);
    }
  }

  /** The first `c` bytes of the packet's frame may be decoded on their own, in vain, and the packet is still
      delivered once the others follow: what was unescaped over them happens to be what stood there. */
  predicate Survives(p: seq<byte>, c: nat)
    requires 1 <= c <= |Frame(p)|
  {
    var out := Partial(Frame(p)[1..c]);
    out == Frame(p)[..|out|]
  }

  /** A frame that arrives in two parts, or that is retried after a refusal, is delivered exactly if decoding
      the first part left its bytes as they were; then so is what follows it. */
  lemma CutSurvivesIff(p: seq<byte>, c: nat, rest: seq<byte>)
    requires |p| > 0 && 1 <= c <= |Frame(p)|
    ensures var s := Left(Frame(p)[..c]) + Frame(p)[c..];
            && (Survives(p, c) <==> p in Split(s).0)
            && (Survives(p, c) ==>
                  Split(s + rest) == ([p] + Split(rest).0, |Frame(p)| + Split(rest).1))
  {
    hide Escape, Split, Partial, Frames;
    var f := Frame(p);
    var out := Partial(f[1..c]);
    var s := Left(f[..c]) + f[c..];
    assert f[..c][1..] == f[1..c] && f[..c][0] == END;
    assert s == out + f[|out|..];
    assert f == f[..|out|] + f[|out|..];
    OneFrame(p);
    SplitFrames([p], rest);
    SplitWholeFrames([p]);
    if p in Split(s).0 {
      OnlyFrameDelivers(s, p);
      assert s[..|out|] == out;
    }
  }

  lemma OneFrame(p: seq<byte>)
    ensures Frames([p]) == Frame(p)
  {
    hide Frame;
    assert [p][1..] == [] && Frame(p) + [] == Frame(p);
  }

  /** Nothing is delivered from a first part alone. */
  lemma CutDeliversNothing(p: seq<byte>, c: nat)
    requires 1 <= c < |Frame(p)|
    ensures Split(Frame(p)[..c]) == ([], 0)
  {
    hide Escape, Scan;
    var t := Frame(p)[..c];
    EscapeHasNoEnd(p);
    assert t[1..] == Escape(p)[..c - 1];
    ScanNoEnd(t[1..]);
  }

  lemma {:induction false} ScanNoEnd(s: seq<byte>)
    requires END !in s
    ensures Scan(s).Open?
  {
    if |s| > 0 {
      if s[0] == ESC {
        if |s| > 1 { ScanNoEnd(s[2..]); }
      } else {
        ScanNoEnd(s[1..]);
      }
    }
  }

  /** A packet whose first byte needs no escape, as in every OSC packet with an address or a bundle tag, survives
      only a cut right behind its opening END. */
  lemma PlainStartSurvivesIff(p: seq<byte>, c: nat)
    requires |p| > 0 && !Special(p[0]) && 1 <= c <= |Frame(p)|
    ensures Survives(p, c) <==> c == 1
  {
    var f := Frame(p);
    var out := Partial(f[1..c]);
    if c > 1 {
      assert f[1..c][0] == f[1] == Escape(p)[0] == p[0];
      assert out[0] == p[0] && f[..|out|][0] == END;
    }
  }
}
