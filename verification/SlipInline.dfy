/** The in-place SLIP encoder and decoder of stream.h, each working inside one array. */
module SlipInline {
  import opened Bytes
  import opened Slip

  /** Replace the first `len` bytes by their frame, expanding from the back so that no source byte is
      overwritten before it was read. */
  method EncodeInline(dst: array<byte>, len: nat) returns (size: nat)
    requires len <= dst.Length
    requires len > 0 ==> |Frame(dst[..len])| <= dst.Length
    modifies dst
    ensures len == 0 ==> size == 0 && dst[..] == old(dst[..])
    ensures len > 0 ==> size == |old(Frame(dst[..len]))| && dst[..size] == old(Frame(dst[..len]))
    ensures len > 0 ==> dst[size..] == old(dst[size..])
  {
    if len == 0 {
      return 0;
    }
    size := Estimate(dst, len);
    if size == len + 2 {
      ShiftByOne(dst, len);
    } else {
      EscapeBackwards(dst, len, size);
    }
  }

  /** The fast track: nothing to escape, so one memmove makes room for the opening END. */
  method ShiftByOne(dst: array<byte>, len: nat)
    requires len + 2 <= dst.Length
    requires len + 2 == |Frame(dst[..len])|
    modifies dst
    ensures dst[..len + 2] == old(Frame(dst[..len]))
    ensures dst[len + 2..] == old(dst[len + 2..])
  {
    ghost var orig := dst[..len];
    EscapeLength(orig);
    NothingEscaped(orig);
    forall i | 0 <= i < len {
      dst[i + 1] := dst[i];
    }
    dst[0] := END;
    dst[len + 1] := END;
    assert dst[..len + 2] == [END] + orig + [END];
  }

  /** Two bytes for the ends, one per byte and one more per byte that needs escaping. */
  method Estimate(dst: array<byte>, len: nat) returns (size: nat)
    requires len <= dst.Length
    ensures size == |Frame(dst[..len])|
  {
    size := 2;
    for from := 0 to len
      invariant size == 2 + |Escape(dst[..from])|
    {
      EscapeSnoc(dst[..len], from);
      assert dst[..len][..from] == dst[..from] && dst[..len][..from + 1] == dst[..from + 1];
      if dst[from] == END || dst[from] == ESC {
        size := size + 1;
      }
      size := size + 1;
    }
  }

  lemma {:induction false} NothingEscaped(p: seq<byte>)
    requires Specials(p) == 0
    ensures Escape(p) == p
  {
    if |p| > 0 {
      NothingEscaped(p[1..]);
      assert p == [p[0]] + p[1..];
    }
  }

  /** Where the frame holds the escape of the packet's byte `k`. */
  lemma FrameAt(p: seq<byte>, k: nat)
    requires k < |p|
    ensures var e, m := |Escape(p[..k])|, EscapeByte(p[k]);
            && k <= e && |Escape(p[..k + 1])| == e + |m| && e + |m| + 1 < |Frame(p)|
            && Frame(p)[e + |m|] == m[|m| - 1] && Frame(p)[e + 1] == m[0]
  {
    var e, m := Escape(p[..k]), EscapeByte(p[k]);
    EscapeSnoc(p, k);
    EscapeAppend(p[..k + 1], p[k + 1..]);
    assert p == p[..k + 1] + p[k + 1..];
    EscapeLength(p[..k]);
    assert Frame(p) == [END] + e + m + Escape(p[k + 1..]) + [END];
  }

  method EscapeBackwards(dst: array<byte>, len: nat, size: nat)
    requires 0 < len <= dst.Length
    requires size == |Frame(dst[..len])| <= dst.Length
    modifies dst
    ensures dst[..size] == old(Frame(dst[..len]))
    ensures dst[size..] == old(dst[size..])
  {
    hide Frame, Escape, EscapeByte;
    ghost var orig := dst[..len];
    ghost var frame := Frame(orig);
    WholeFrame(orig);
    var to := size - 1;
    dst[to] := END;
    to := to - 1;
    var from := len - 1;
    while from >= 0
      invariant -1 <= from < len
      invariant to == |Escape(orig[..from + 1])| && from < to < size - 1
      invariant forall i | 0 <= i <= from :: dst[i] == orig[i]
      invariant forall i | to < i < size :: dst[i] == frame[i]
      invariant forall i | size <= i < dst.Length :: dst[i] == old(dst[i])
    {
      FrameAt(orig, from);
      EscapeByteCases(orig[from]);
      if dst[from] == END {
        dst[to] := END_REPLACE;
        to := to - 1;
        dst[to] := ESC;
        to := to - 1;
      } else if dst[from] == ESC {
        dst[to] := ESC_REPLACE;
        to := to - 1;
        dst[to] := ESC;
        to := to - 1;
      } else {
        dst[to] := dst[from];
        to := to - 1;
      }
      from := from - 1;
    }
    dst[to] := END;
  }

  lemma EscapeByteCases(b: byte)
    ensures b == END ==> EscapeByte(b) == [ESC, END_REPLACE]
    ensures b == ESC ==> EscapeByte(b) == [ESC, ESC_REPLACE]
    ensures b != END && b != ESC ==> EscapeByte(b) == [b]
  {
  }

  lemma WholeFrame(p: seq<byte>)
    ensures |Frame(p)| == |Escape(p)| + 2 && |p| <= |Escape(p)|
    ensures Frame(p)[0] == END && Frame(p)[|Frame(p)| - 1] == END
    ensures p[..|p|] == p && p[..0] == [] && Escape([]) == []
  {
    EscapeLength(p);
  }

  /** Decode one frame of the `len` bytes at `at`, compacting the packet to the front. All other bytes stay
      as they were, also when no frame was whole and only a part of one was compacted. */
  method DecodeInline(a: array<byte>, at: nat, len: nat) returns (parsed: nat, size: nat)
    requires at + len <= a.Length
    modifies a
    ensures parsed == old(Decode(a[at..at + len])).0 && size == |old(Decode(a[at..at + len])).1|
    ensures size <= parsed <= len
    ensures a[at..at + size] == old(Decode(a[at..at + len])).1
    ensures a[at..at + len] == old(Left(a[at..at + len]))
    ensures forall i | 0 <= i < at || at + len <= i < a.Length :: a[i] == old(a[i])
    ensures parsed > 0 ==> forall i | at + parsed <= i < a.Length :: a[i] == old(a[i])
  {
    ghost var s := a[at..at + len];
    var whole := len > 0 && a[at] == END;
    var ptr;
    assert s[0..] == s;
    parsed, ptr := ScanInline(a, at, len, if whole then 1 else 0);
    size := if whole && parsed > 0 then ptr else 0;
  }

  /** The decoder's loop, `first` being 1 behind an opening END. The packet is compacted to the front of the
      array, every write going to a position already read. */
  method ScanInline(a: array<byte>, at: nat, len: nat, first: nat) returns (parsed: nat, ptr: nat)
    requires at + len <= a.Length && first <= len
    modifies a
    ensures match old(Scan(a[at..at + len][first..]))
            case Open => parsed == 0
            case Closed(used, out) => parsed == first + used && ptr == |out| && a[at..at + ptr] == out
    ensures a[at..at + len] == old(Overlay(a[at..at + len], Partial(a[at..at + len][first..])))
    ensures forall i | 0 <= i < at || at + len <= i < a.Length :: a[i] == old(a[i])
    ensures parsed > 0 ==> forall i | at + parsed <= i < a.Length :: a[i] == old(a[i])
  {
    hide Scan, Partial, Overlay, Unescape, Compacted, Progress;
    ghost var s, b0 := a[at..at + len], a[..];
    ghost var out: seq<byte> := [];
    var src := first;
    ptr := 0;
    NoProgress(s, first);
    NothingMoved(b0, at, src);
    while src < len
      invariant first <= src <= len && ptr == |out|
      invariant Progress(s, first, src, out)
      invariant Compacted(a[..], b0, at, src, out)
      decreases len - src
    {
      ProgressTurn(s, first, src, out);
      Unread(a[..], b0, at, src, out);
      if a[at + src] == ESC {
        if src == len - 1 {
          break;
        }
        ptr := StoreUnescaped(a, at, ptr, a[at + src + 1], b0, src, out);
        out := out + Unescape(s[src + 1]);
        src := src + 2;
      } else if a[at + src] == END {
        Overlaid(a[..], b0, at, len, out);
        src := src + 1;
        return src, ptr;
      } else {
        ghost var b := a[..];
        a[at + ptr] := a[at + src];
        Stored(b, a[..], b0, at, src, out, s[src]);
        out := out + [s[src]];
        ptr := ptr + 1;
        src := src + 1;
      }
    }
    Unread(a[..], b0, at, src, out);
    Overlaid(a[..], b0, at, len, out);
    StillOpen(s, first, src, out);
    parsed := 0;
  }

  /** The scan of `s` from `first` on has come to `src` and unescaped `out`. */
  ghost predicate Progress(s: seq<byte>, first: nat, src: nat, out: seq<byte>) {
    && first <= src <= |s|
    && Scan(s[first..]) == Then(src - first, out, Scan(s[src..]))
    && Partial(s[first..]) == out + Partial(s[src..])
  }

  lemma NoProgress(s: seq<byte>, first: nat)
    requires first <= |s|
    ensures Progress(s, first, first, [])
  {
    hide Scan, Partial;
    ThenNothing(Scan(s[first..]));
    assert [] + Partial(s[first..]) == Partial(s[first..]);
  }

  /** One turn of the loop, seen from what was scanned so far. */
  lemma ProgressTurn(s: seq<byte>, first: nat, src: nat, out: seq<byte>)
    requires Progress(s, first, src, out) && src < |s|
    ensures first <= |s|
    ensures s[src] == ESC && src + 1 < |s| ==> Progress(s, first, src + 2, out + Unescape(s[src + 1]))
    ensures s[src] == END ==> Scan(s[first..]) == Closed(src + 1 - first, out) && Partial(s[first..]) == out
    ensures s[src] != ESC && s[src] != END ==> Progress(s, first, src + 1, out + [s[src]])
  {
    hide Scan, Partial, Then, Unescape;
    ScanStep(s, src);
    PartialTurn(s, src, out);
    if s[src] == END {
      ThenClosed(src - first, out);
    } else if s[src] != ESC {
      ThenThen(src - first, out, 1, [s[src]], Scan(s[src + 1..]));
    } else if src + 1 < |s| {
      ThenThen(src - first, out, 2, Unescape(s[src + 1]), Scan(s[src + 2..]));
    }
  }

  lemma PartialTurn(s: seq<byte>, src: nat, out: seq<byte>)
    requires src < |s|
    ensures (s[src] == ESC && src + 1 == |s|) || s[src] == END ==> out + Partial(s[src..]) == out
    ensures s[src] == ESC && src + 1 < |s| ==>
              out + Partial(s[src..]) == out + Unescape(s[src + 1]) + Partial(s[src + 2..])
    ensures s[src] != ESC && s[src] != END ==>
              out + Partial(s[src..]) == out + [s[src]] + Partial(s[src + 1..])
  {
    hide Unescape;
    var t := s[src..];
    assert t[1..] == s[src + 1..];
    if |t| > 1 { assert t[2..] == s[src + 2..]; }
    if t[0] == ESC && |t| > 1 {
      assert out + (Unescape(t[1]) + Partial(t[2..])) == out + Unescape(t[1]) + Partial(t[2..]);
    } else if t[0] != ESC && t[0] != END {
      assert out + ([t[0]] + Partial(t[1..])) == out + [t[0]] + Partial(t[1..]);
    }
  }

  /** Store what the escaped byte `e` stands for behind the packet's first `ptr` bytes. */
  method StoreUnescaped(a: array<byte>, at: nat, ptr: nat, e: byte, ghost b0: seq<byte>, ghost src: nat,
                        ghost out: seq<byte>) returns (ptr': nat)
    requires Compacted(a[..], b0, at, src, out) && at + src + 2 <= a.Length && ptr == |out|
    modifies a
    ensures ptr' == |out + Unescape(e)| && Compacted(a[..], b0, at, src + 2, out + Unescape(e))
  {
    hide Compacted;
    ghost var b := a[..];
    Unread(b, b0, at, src, out);
    ptr' := ptr;
    if e == END_REPLACE {
      a[at + ptr'] := END;
      ptr' := ptr' + 1;
      Stored(b, a[..], b0, at, src, out, END);
    } else if e == ESC_REPLACE {
      a[at + ptr'] := ESC;
      ptr' := ptr' + 1;
      Stored(b, a[..], b0, at, src, out, ESC);
    } else {
      Passed(b, b0, at, src, out);
      assert out + [] == out;
    }
    Passed(a[..], b0, at, src + 1, out + Unescape(e));
  }

  /** The array after `src` bytes were read: the packet's bytes so far stand in front, and every other byte is
      as it was. */
  ghost predicate Compacted(b: seq<byte>, b0: seq<byte>, at: nat, src: nat, out: seq<byte>) {
    && |b| == |b0| && |out| <= src && at + src <= |b|
    && (forall i | 0 <= i < |out| :: b[at + i] == out[i])
    && (forall i | 0 <= i < at || at + |out| <= i < |b| :: b[i] == b0[i])
  }

  lemma NothingMoved(b0: seq<byte>, at: nat, src: nat)
    requires at + src <= |b0|
    ensures Compacted(b0, b0, at, src, [])
  {
  }

  lemma Unread(b: seq<byte>, b0: seq<byte>, at: nat, src: nat, out: seq<byte>)
    requires Compacted(b, b0, at, src, out)
    ensures |b| == |b0| && |out| <= src && at + src <= |b| && b[at..at + |out|] == out
    ensures forall i | 0 <= i < at || at + |out| <= i < |b| :: b[i] == b0[i]
  {
  }

  lemma Overlaid(b: seq<byte>, b0: seq<byte>, at: nat, len: nat, out: seq<byte>)
    requires |b| == |b0| && |out| <= len && at + len <= |b| && b[at..at + |out|] == out
    requires forall i | at + |out| <= i < |b| :: b[i] == b0[i]
    ensures b[at..at + len] == Overlay(b0[at..at + len], out)
  {
    assert b[at..at + len] == b[at..at + |out|] + b[at + |out|..at + len];
    assert b0[at..at + len][|out|..] == b0[at + |out|..at + len];
  }

  lemma Stored(b: seq<byte>, c: seq<byte>, b0: seq<byte>, at: nat, src: nat, out: seq<byte>, v: byte)
    requires Compacted(b, b0, at, src, out) && at + src < |b| && c == b[at + |out| := v]
    ensures Compacted(c, b0, at, src + 1, out + [v])
  {
  }

  lemma Passed(b: seq<byte>, b0: seq<byte>, at: nat, src: nat, out: seq<byte>)
    requires Compacted(b, b0, at, src, out) && at + src < |b|
    ensures Compacted(b, b0, at, src + 1, out)
  {
  }

  lemma StillOpen(s: seq<byte>, first: nat, src: nat, out: seq<byte>)
    requires Progress(s, first, src, out)
    requires src == |s| || (src + 1 == |s| && s[src] == ESC)
    ensures first <= |s| && Scan(s[first..]) == Open && Partial(s[first..]) == out
  {
    assert out + [] == out;
  }

  lemma ThenClosed(n: nat, out: seq<byte>)
    ensures Then(n, out, Closed(1, [])) == Closed(n + 1, out)
  {
    assert out + [] == out;
  }

  /** One turn of the scan, seen from position `src`. */
  lemma ScanStep(s: seq<byte>, src: nat)
    requires src < |s|
    ensures s[src] == ESC && src + 1 == |s| ==> Scan(s[src..]) == Open
    ensures s[src] == ESC && src + 1 < |s| ==>
              Scan(s[src..]) == Then(2, Unescape(s[src + 1]), Scan(s[src + 2..]))
    ensures s[src] == END ==> Scan(s[src..]) == Closed(1, [])
    ensures s[src] != ESC && s[src] != END ==> Scan(s[src..]) == Then(1, [s[src]], Scan(s[src + 1..]))
  {
    var t := s[src..];
    assert t[0] == s[src] && t[1..] == s[src + 1..];
    if |t| > 1 {
      assert t[1] == s[src + 1] && t[2..] == s[src + 2..];
    }
  }

  lemma ThenNothing(s: Scanned)
    ensures Then(0, [], s) == s
  {
    if s.Closed? { assert [] + s.out == s.out; }
  }

  lemma ThenThen(n: nat, p: seq<byte>, m: nat, q: seq<byte>, s: Scanned)
    ensures Then(n, p, Then(m, q, s)) == Then(n + m, p + q, s)
  {
    if s.Closed? { assert p + (q + s.out) == p + q + s.out; }
  }
}
