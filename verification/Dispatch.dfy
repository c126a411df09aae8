/** Pattern dispatch: walking the name trees with an OSC address and running the branches on the slots. */
module Dispatch {
  import opened Bytes
  import opened Osc
  import opened Slots

  const CHANNELS: nat := 512

  // ---- trees ----

  datatype Branch = NoBranch | OnChannel | OnPriority

  /** A named node; a null `trees` pointer is the empty sequence. */
  datatype Tree = Tree(name: seq<byte>, branch: Branch, trees: seq<Tree>)

  /** The segment matcher: a pattern against a name. */
  type Matcher = (seq<byte>, seq<byte>) -> bool

  function Decimal(n: nat): seq<byte> {
    if n < 10 then [48 + n] else Decimal(n / 10) + [48 + n % 10]
  }

  /** The number a sequence of digits is read as. */
  function NumberOf(s: seq<byte>): int {
    if |s| == 0 then 0 else 10 * NumberOf(s[..|s| - 1]) + (s[|s| - 1] as int - 48)
  }

  /** The digits '0' to '9', without a leading zero, that are read as `n`. */
  predicate Numeral(s: seq<byte>, n: nat) {
    && |s| > 0 && (forall k | 0 <= k < |s| :: 48 <= s[k] <= 57)
    && (s[0] == 48 ==> |s| == 1)
    && NumberOf(s) == n
  }

  lemma {:induction false} DecimalIsNumeral(n: nat)
    ensures Numeral(Decimal(n), n)
  {
    if n < 10 {
      OneDigit(Decimal(n));
    } else {
      DecimalIsNumeral(n / 10);
      OneDigit(Decimal(n / 10)[..1]);
      assert |Decimal(n / 10)| == 1 ==> Decimal(n / 10)[..1] == Decimal(n / 10);
      assert Decimal(n)[..|Decimal(n)| - 1] == Decimal(n / 10);
    }
  }

  lemma OneDigit(s: seq<byte>)
    requires |s| == 1
    ensures NumberOf(s) == s[0] as int - 48
  {
    assert s[..0] == [];
  }

  lemma {:induction false} PositiveNumber(s: seq<byte>)
    requires |s| > 0 && s[0] > 48 && forall k | 0 <= k < |s| :: 48 <= s[k] <= 57
    ensures NumberOf(s) > 0
  {
    if |s| > 1 {
      PositiveNumber(s[..|s| - 1]);
    } else {
      assert s[..0] == [];
    }
  }

  /** A number has one numeral only, so no two nodes have the same name. */
  lemma {:induction false} OneNumeral(s: seq<byte>, n: nat)
    ensures Numeral(s, n) <==> s == Decimal(n)
    decreases |s|
  {
    DecimalIsNumeral(n);
    if Numeral(s, n) {
      var r := s[..|s| - 1];
      assert s == r + [s[|s| - 1]];
      if |r| > 0 {
        PositiveNumber(r);
        OneNumeral(r, NumberOf(r));
      }
    }
  }

  const DMX: seq<byte> := [100, 109, 120]  // "dmx"

  function PriorityTrees(): (ts: seq<Tree>)
    ensures |ts| == PRIORITIES
    ensures forall p | 0 <= p < PRIORITIES :: ts[p] == Tree(Decimal(p), OnPriority, [])
  {
    seq(PRIORITIES, p requires 0 <= p < PRIORITIES => Tree(Decimal(p), OnPriority, []))
  }

  function ChannelTrees(): (ts: seq<Tree>)
    ensures |ts| == CHANNELS
    ensures forall c | 0 <= c < CHANNELS :: ts[c] == Tree(Decimal(c), OnChannel, PriorityTrees())
  {
    seq(CHANNELS, c requires 0 <= c < CHANNELS => Tree(Decimal(c), OnChannel, PriorityTrees()))
  }

  function RootTrees(): seq<Tree> { [Tree(DMX, NoBranch, ChannelTrees())] }

  // ---- the walk, as the calls it makes ----

  datatype Call = Call(branch: Branch, index: nat)

  /** strchr(from, '/') as an offset, or the length of the path. */
  function SlashFrom(path: seq<byte>, from: nat): (n: nat)
    requires from <= |path|
    ensures from <= n <= |path|
    ensures n < |path| ==> path[n] == SLASH
    ensures forall i | from <= i < n :: path[i] != SLASH
    decreases |path| - from
  {
    if from == |path| || path[from] == SLASH then from else SlashFrom(path, from + 1)
  }

  /** The calls made for the tree at index `k`, given the path's segment at `from`. */
  function Turn(m: Matcher, path: seq<byte>, from: nat, tree: Tree, k: nat): seq<Call>
    requires from <= |path|
    decreases |path| - from, 0
  {
    var slash := SlashFrom(path, from);
    if !m(path[from..slash], tree.name) then []
    else if |tree.trees| > 0 && slash < |path| then
      (if tree.branch != NoBranch then [Call(tree.branch, k)] else [])
      + Walk(m, path, slash + 1, tree.trees, 0)
    else if tree.branch != NoBranch && slash == |path| then [Call(tree.branch, k)]
    else []
  }

  /** The calls made by the tree walk for the trees from index `k` on. */
  function Walk(m: Matcher, path: seq<byte>, from: nat, trees: seq<Tree>, k: nat): seq<Call>
    requires from <= |path| && k <= |trees|
    decreases |path| - from, 1 + |trees| - k
  {
    if k == |trees| then [] else Turn(m, path, from, trees[k], k) + Walk(m, path, from, trees, k + 1)
  }

  // ---- what the calls do ----

  type Table = map<(nat, nat), byte>

  /** The low byte of an int32, as `& 0xff` gives it. */
  function LowByte(i: i32): byte { U32Of(i) % 0x100 }

  /** It differs from the number by a multiple of 256, for negative numbers too. */
  lemma LowByteOf(i: i32)
    ensures (i - LowByte(i)) % 256 == 0
  {
  }

  /** The dispatch state: the current channel, the value in effect if one was set, the next argument. */
  datatype Cur = Cur(channel: nat, value: byte, isSet: bool, next: nat, table: Table)

  function TakeArg(args: seq<Arg>, c: Cur): Cur {
    if c.next >= |args| then c
    else if args[c.next].Int32? then c.(value := LowByte(args[c.next].i), isSet := true, next := c.next + 1)
    else c.(next := c.next + 1)
  }

  function Put(t: Table, key: (nat, nat), v: Option<byte>): Table {
    if v.Some? then t[key := v.value] else t - {key}
  }

  function Do(args: seq<Arg>, c: Cur, call: Call): Cur {
    match call.branch
    case NoBranch => c
    case OnChannel => c.(channel := call.index)
    case OnPriority =>
      var d := TakeArg(args, c);
      d.(table := Put(d.table, (d.channel, call.index), if d.isSet then Some(d.value) else None))
  }

  function DoAll(args: seq<Arg>, c: Cur, calls: seq<Call>): Cur
    decreases |calls|
  {
    if |calls| == 0 then c else DoAll(args, Do(args, c, calls[0]), calls[1..])
  }

  lemma {:induction false} DoAllAppend(args: seq<Arg>, c: Cur, x: seq<Call>, y: seq<Call>)
    ensures DoAll(args, c, x + y) == DoAll(args, DoAll(args, c, x), y)
    decreases |x|
  {
    if |x| == 0 {
      assert x + y == y;
    } else {
      DoAllAppend(args, Do(args, c, x[0]), x[1..], y);
      HeadTail(x, y);
    }
  }

  // ---- the meaning of a message, independent of the walk ----

  function Segments(path: seq<byte>, from: nat): seq<seq<byte>>
    requires from <= |path|
    decreases |path| - from
  {
    var slash := SlashFrom(path, from);
    [path[from..slash]] + if slash < |path| then Segments(path, slash + 1) else []
  }

  function Join(segments: seq<seq<byte>>): seq<byte> {
    if |segments| == 0 then []
    else if |segments| == 1 then segments[0]
    else segments[0] + [47] + Join(segments[1..])
  }

  /** The segments are what stands between the slashes: none holds one, and joined by them they are the path. */
  lemma {:induction false} SegmentsJoin(path: seq<byte>, from: nat)
    requires from <= |path|
    ensures var s := Segments(path, from);
            |s| > 0 && Join(s) == path[from..] && forall i | 0 <= i < |s| :: 47 !in s[i]
    decreases |path| - from
  {
    hide Segments, SlashFrom;
    var slash := SlashFrom(path, from);
    var s := Segments(path, from);
    SegmentsUnfold(path, from);
    if slash < |path| {
      SegmentsJoin(path, slash + 1);
      assert s[1..] == Segments(path, slash + 1);
      assert path[from..] == path[from..slash] + [47] + path[slash + 1..];
    } else {
      assert path[from..slash] == path[from..];
    }
  }

  /** Pairs of matched channels and priorities, from (c, p) on, channel by channel. */
  function PrioritiesFrom(m: Matcher, s2: seq<byte>, c: nat, p: nat): seq<(nat, nat)>
    decreases PRIORITIES - p
  {
    if p >= PRIORITIES then []
    else (if m(s2, Decimal(p)) then [(c, p)] else []) + PrioritiesFrom(m, s2, c, p + 1)
  }

  function PairsFrom(m: Matcher, s1: seq<byte>, s2: seq<byte>, c: nat): seq<(nat, nat)>
    decreases CHANNELS - c
  {
    if c >= CHANNELS then []
    else (if m(s1, Decimal(c)) then PrioritiesFrom(m, s2, c, 0) else []) + PairsFrom(m, s1, s2, c + 1)
  }

  /** The pairs a path addresses: only /dmx/channel/priority addresses any. */
  function Pairs(m: Matcher, path: seq<byte>): seq<(nat, nat)> {
    if |path| == 0 then []
    else
      var s := Segments(path, 1);
      if |s| == 3 && m(s[0], DMX) then PairsFrom(m, s[1], s[2], 0) else []
  }

  /** The low byte of the last int32 among the first `n` arguments. */
  function Latest(args: seq<Arg>, n: nat): Option<byte> {
    if n > |args| then Latest(args, |args|)
    else if n == 0 then None
    else if args[n - 1].Int32? then Some(LowByte(args[n - 1].i))
    else Latest(args, n - 1)
  }

  /** Setting or clearing the pairs in turn, the k-th with what the first k+1 arguments give. */
  function Assign(args: seq<Arg>, t: Table, ps: seq<(nat, nat)>, k: nat): Table
    decreases |ps|
  {
    if |ps| == 0 then t
    else Assign(args, Put(t, ps[0], Latest(args, k + 1)), ps[1..], k + 1)
  }

  /** The table after a message. */
  function Apply(m: Matcher, t: Table, msg: Message): Table {
    Assign(msg.args, t, Pairs(m, msg.path), 0)
  }

  // ---- what Apply means ----

  function At(t: Table, key: (nat, nat)): Option<byte> { if key in t then Some(t[key]) else None }

  predicate Before(x: (nat, nat), y: (nat, nat)) { x.0 < y.0 || (x.0 == y.0 && x.1 < y.1) }

  /** Strictly increasing, channel first, so that no pair comes twice. */
  predicate Sorted(ps: seq<(nat, nat)>) { forall i, j | 0 <= i < j < |ps| :: Before(ps[i], ps[j]) }

  lemma {:induction false} PrioritiesMatch(m: Matcher, s2: seq<byte>, c: nat, p: nat, x: (nat, nat))
    ensures x in PrioritiesFrom(m, s2, c, p) <==> x.0 == c && p <= x.1 < PRIORITIES && m(s2, Decimal(x.1))
    decreases PRIORITIES - p
  {
    hide Decimal;
    if p < PRIORITIES { PrioritiesMatch(m, s2, c, p + 1, x); }
  }

  lemma {:induction false} PrioritiesSorted(m: Matcher, s2: seq<byte>, c: nat, p: nat)
    ensures Sorted(PrioritiesFrom(m, s2, c, p))
    decreases PRIORITIES - p
  {
    hide Decimal;
    if p < PRIORITIES {
      var ps := PrioritiesFrom(m, s2, c, p + 1);
      PrioritiesSorted(m, s2, c, p + 1);
      forall j | 0 <= j < |ps|
        ensures Before((c, p), ps[j])
      {
        PrioritiesMatch(m, s2, c, p + 1, ps[j]);
      }
    }
  }

  lemma {:induction false} PairsMatch(m: Matcher, s1: seq<byte>, s2: seq<byte>, c: nat, x: (nat, nat))
    ensures x in PairsFrom(m, s1, s2, c) <==>
              c <= x.0 < CHANNELS && x.1 < PRIORITIES && m(s1, Decimal(x.0)) && m(s2, Decimal(x.1))
    decreases CHANNELS - c
  {
    hide Decimal, PrioritiesFrom;
    if c < CHANNELS {
      PairsMatch(m, s1, s2, c + 1, x);
      PrioritiesMatch(m, s2, c, 0, x);
    }
  }

  lemma {:induction false} PairsSorted(m: Matcher, s1: seq<byte>, s2: seq<byte>, c: nat)
    ensures Sorted(PairsFrom(m, s1, s2, c))
    decreases CHANNELS - c
  {
    hide Decimal, PrioritiesFrom;
    if c < CHANNELS {
      var x, y := PrioritiesFrom(m, s2, c, 0), PairsFrom(m, s1, s2, c + 1);
      PairsSorted(m, s1, s2, c + 1);
      PrioritiesSorted(m, s2, c, 0);
      forall i, j | 0 <= i < |x| && 0 <= j < |y|
        ensures Before(x[i], y[j])
      {
        PrioritiesMatch(m, s2, c, 0, x[i]);
        PairsMatch(m, s1, s2, c + 1, y[j]);
      }
    }
  }

  lemma {:induction false} AssignMisses(args: seq<Arg>, t: Table, ps: seq<(nat, nat)>, k: nat, key: (nat, nat))
    requires key !in ps
    ensures At(Assign(args, t, ps, k), key) == At(t, key)
    decreases |ps|
  {
    hide Latest;
    if |ps| > 0 { AssignMisses(args, Put(t, ps[0], Latest(args, k + 1)), ps[1..], k + 1, key); }
  }

  lemma {:induction false} AssignHits(args: seq<Arg>, t: Table, ps: seq<(nat, nat)>, k: nat, j: nat)
    requires Sorted(ps) && j < |ps|
    ensures At(Assign(args, t, ps, k), ps[j]) == Latest(args, k + j + 1)
    decreases |ps|
  {
    hide Latest;
    var u := Put(t, ps[0], Latest(args, k + 1));
    if j == 0 {
      assert forall i | 0 < i < |ps| :: Before(ps[0], ps[i]);
      AssignMisses(args, u, ps[1..], k + 1, ps[0]);
    } else {
      AssignHits(args, u, ps[1..], k + 1, j - 1);
    }
  }

  /** What a message does to the table: it addresses exactly the matching channel and priority pairs, once
      each and channel by channel; the k-th takes the last int32 among the first k+1 arguments, or is
      cleared when there is none; everything else stays. Paths that do not have three segments under dmx
      address nothing. */
  lemma MessageMeaning(m: Matcher, t: Table, msg: Message)
    requires |msg.path| > 0
    ensures var ps, t' := Pairs(m, msg.path), Apply(m, t, msg);
            && Sorted(ps)
            && (forall x: (nat, nat) :: x in ps <==>
                  var s := Segments(msg.path, 1);
                  && |s| == 3 && m(s[0], DMX) && x.0 < CHANNELS && x.1 < PRIORITIES
                  && m(s[1], Decimal(x.0)) && m(s[2], Decimal(x.1)))
            && (forall k | 0 <= k < |ps| :: At(t', ps[k]) == Latest(msg.args, k + 1))
            && (forall x | x !in ps :: At(t', x) == At(t, x))
  {
    hide Decimal, PairsFrom, Segments, Latest, Assign, At;
    var ps := Pairs(m, msg.path);
    var s := Segments(msg.path, 1);
    if |s| == 3 {
      PairsSorted(m, s[1], s[2], 0);
      forall x: (nat, nat)
        ensures x in PairsFrom(m, s[1], s[2], 0) <==>
                  x.0 < CHANNELS && x.1 < PRIORITIES && m(s[1], Decimal(x.0)) && m(s[2], Decimal(x.1))
      {
        PairsMatch(m, s[1], s[2], 0, x);
      }
    }
    forall k | 0 <= k < |ps|
      ensures At(Apply(m, t, msg), ps[k]) == Latest(msg.args, k + 1)
    {
      AssignHits(msg.args, t, ps, 0, k);
    }
    forall x | x !in ps
      ensures At(Apply(m, t, msg), x) == At(t, x)
    {
      AssignMisses(msg.args, t, ps, 0, x);
    }
  }

  /** A matcher that takes no pattern for anything but itself. */
  function Exact(): Matcher { (pattern: seq<byte>, name: seq<byte>) => pattern == name }

  /** Under it, the documented address of a channel and a priority, in digits, addresses exactly that pair, and
      nothing if there is no such channel or priority. */
  lemma ExactAddress(c: nat, p: nat, s1: seq<byte>, s2: seq<byte>)
    requires Numeral(s1, c) && Numeral(s2, p)
    ensures Pairs(Exact(), Text("/dmx/") + s1 + Text("/") + s2) == if c < 512 && p < 32 then [(c, p)] else []
  {
    hide Numeral, Decimal;
    var path := Text("/dmx/") + s1 + Text("/") + s2;
    AddressSegments(s1, s2, c, p);
    var ps := Pairs(Exact(), path);
    assert ps == PairsFrom(Exact(), s1, s2, 0);
    PairsSorted(Exact(), s1, s2, 0);
    forall x: (nat, nat)
      ensures x in ps <==> x == (c, p) && c < 512 && p < 32
    {
      PairsMatch(Exact(), s1, s2, 0, x);
      NamedAlone(s1, c, x.0);
      NamedAlone(s2, p, x.1);
    }
    assert forall i | 0 <= i < |ps| :: ps[i] in ps;
    OnePair(ps, (c, p));
    assert c < 512 && p < 32 ==> (c, p) in ps;
  }

  /** So a message with an integer sets that pair to the integer modulo 256, and one without arguments clears it. */
  lemma ExactMessage(t: Table, c: nat, p: nat, s1: seq<byte>, s2: seq<byte>, i: i32)
    requires Numeral(s1, c) && Numeral(s2, p) && c < 512 && p < 32
    ensures var path := Text("/dmx/") + s1 + Text("/") + s2;
            && Apply(Exact(), t, Message(path, [Int32(i)])) == t[(c, p) := i % 256]
            && Apply(Exact(), t, Message(path, [])) == t - {(c, p)}
  {
    hide Numeral, Pairs, LowByte, Text;
    ExactAddress(c, p, s1, s2);
    LowByteOf(i);
    assert Latest([Int32(i)], 1) == Some(LowByte(i)) && Latest([], 1) == None;
    OneAssigned([Int32(i)], t, (c, p));
    OneAssigned([], t, (c, p));
  }

  lemma OneAssigned(args: seq<Arg>, t: Table, x: (nat, nat))
    ensures Assign(args, t, [x], 0) == Put(t, x, Latest(args, 1))
  {
    hide Latest;
    assert [x][1..] == [];
  }

  lemma NamedAlone(s: seq<byte>, n: nat, k: nat)
    requires Numeral(s, n)
    ensures s == Decimal(k) <==> k == n
  {
    hide Decimal;
    OneNumeral(s, n);
    DecimalIsNumeral(k);
  }

  lemma OnePair(ps: seq<(nat, nat)>, x: (nat, nat))
    requires Sorted(ps) && forall i | 0 <= i < |ps| :: ps[i] == x
    ensures ps == if x in ps then [x] else []
  {
    assert |ps| <= 1 || Before(ps[0], ps[1]);
    assert |ps| == 1 ==> ps[0] in ps;
  }

  lemma AddressSegments(s1: seq<byte>, s2: seq<byte>, c: nat, p: nat)
    requires Numeral(s1, c) && Numeral(s2, p)
    ensures Segments(Text("/dmx/") + s1 + Text("/") + s2, 1) == [DMX, s1, s2]
  {
    hide Segments, SlashFrom, NumberOf;
    var path := Text("/dmx/") + s1 + Text("/") + s2;
    var n := 5 + |s1|;
    assert path[1] == 100 && path[2] == 109 && path[3] == 120 && path[4] == 47 && path[n] == 47;
    assert path[5..n] == s1 && path[n + 1..] == s2 && path[1..4] == DMX;
    FirstSegment(path, 1, 4);
    FirstSegment(path, 5, n);
    LastSegment(path, n + 1);
  }

  lemma FirstSegment(path: seq<byte>, from: nat, n: nat)
    requires from <= n < |path| && path[n] == 47 && 47 !in path[from..n]
    ensures Segments(path, from) == [path[from..n]] + Segments(path, n + 1)
  {
    hide Segments, SlashFrom;
    var slash := SlashFrom(path, from);
    assert forall i | from <= i < n :: path[i] == path[from..n][i - from] != 47;
    assert slash == n;
    assert Segments(path, from) == [path[from..slash]] + Segments(path, slash + 1) by { SegmentsUnfold(path, from); }
  }

  lemma LastSegment(path: seq<byte>, from: nat)
    requires from <= |path| && 47 !in path[from..]
    ensures Segments(path, from) == [path[from..]]
  {
    hide Segments, SlashFrom;
    var slash := SlashFrom(path, from);
    assert forall i | from <= i < |path| :: path[i] == path[from..][i - from] != 47;
    assert slash == |path|;
    SegmentsUnfold(path, from);
    assert path[from..|path|] == path[from..];
  }

  lemma SegmentsUnfold(path: seq<byte>, from: nat)
    requires from <= |path|
    ensures var slash := SlashFrom(path, from);
            Segments(path, from) == [path[from..slash]] + if slash < |path| then Segments(path, slash + 1) else []
  {
  }

  /** `Latest` is what it says: nothing when no int32 is among the first `n` arguments... */
  lemma {:induction false} LatestNone(args: seq<Arg>, n: nat)
    ensures Latest(args, n).None? <==> forall i | 0 <= i < n && i < |args| :: !args[i].Int32?
    decreases n
  {
    hide LowByte;
    if n > |args| {
      LatestNone(args, |args|);
    } else if n > 0 {
      LatestNone(args, n - 1);
    }
  }

  /** ... and otherwise the low byte of the last one. */
  lemma {:induction false} LatestIsLast(args: seq<Arg>, n: nat, i: nat)
    requires i < n && i < |args| && args[i].Int32?
    requires forall j | i < j < n && j < |args| :: !args[j].Int32?
    ensures Latest(args, n) == Some(LowByte(args[i].i))
    decreases n
  {
    hide LowByte;
    if n > |args| {
      LatestIsLast(args, |args|, i);
    } else if i < n - 1 {
      LatestIsLast(args, n - 1, i);
    }
  }

  // ---- the walk computes Apply ----

  lemma {:induction false} AssignAppend(args: seq<Arg>, t: Table, x: seq<(nat, nat)>, y: seq<(nat, nat)>, k: nat)
    ensures Assign(args, t, x + y, k) == Assign(args, Assign(args, t, x, k), y, k + |x|)
    decreases |x|
  {
    hide Latest;
    if |x| == 0 {
      assert x + y == y;
    } else {
      AssignAppend(args, Put(t, x[0], Latest(args, k + 1)), x[1..], y, k + 1);
      HeadTail(x, y);
    }
  }

  /** After `n` priorities the cursor took min(n, |args|) arguments and holds the last int32 among them. */
  predicate Sync(args: seq<Arg>, c: Cur, n: nat) {
    && c.next == (if n < |args| then n else |args|)
    && (if c.isSet then Some(c.value) else None) == Latest(args, n)
  }

  lemma SyncStep(args: seq<Arg>, c: Cur, n: nat, p: nat)
    requires Sync(args, c, n)
    ensures var d := Do(args, c, Call(OnPriority, p));
            && d.table == Put(c.table, (c.channel, p), Latest(args, n + 1))
            && d.channel == c.channel && Sync(args, d, n + 1)
  {
  }

  lemma WalkPriorityTurn(m: Matcher, path: seq<byte>, from: nat, k: nat)
    requires from <= |path| == SlashFrom(path, from) && k < PRIORITIES
    ensures Walk(m, path, from, PriorityTrees(), k)
            == (if m(path[from..], Decimal(k)) then [Call(OnPriority, k)] else [])
               + Walk(m, path, from, PriorityTrees(), k + 1)
  {
    hide Decimal;
    assert path[from..|path|] == path[from..];
  }

  lemma {:induction false} WalkPriorities(m: Matcher, path: seq<byte>, from: nat, k: nat,
                                          args: seq<Arg>, c: Cur, n: nat)
    requires from <= |path| == SlashFrom(path, from) && k <= PRIORITIES
    requires Sync(args, c, n)
    ensures var ps := PrioritiesFrom(m, path[from..], c.channel, k);
            var d := DoAll(args, c, Walk(m, path, from, PriorityTrees(), k));
            && d.table == Assign(args, c.table, ps, n)
            && d.channel == c.channel && Sync(args, d, n + |ps|)
    decreases PRIORITIES - k
  {
    hide Latest, Decimal, Do, Walk, Sync, SlashFrom;
    if k == PRIORITIES {
      WalkDone(m, path, from, PriorityTrees());
    } else {
      var rest := Walk(m, path, from, PriorityTrees(), k + 1);
      var later := PrioritiesFrom(m, path[from..], c.channel, k + 1);
      WalkPriorityTurn(m, path, from, k);
      if m(path[from..], Decimal(k)) {
        SyncStep(args, c, n, k);
        WalkPriorities(m, path, from, k + 1, args, Do(args, c, Call(OnPriority, k)), n + 1);
        assert ([Call(OnPriority, k)] + rest)[1..] == rest;
        assert ([(c.channel, k)] + later)[1..] == later;
      } else {
        assert [] + rest == rest && [] + later == later;
        WalkPriorities(m, path, from, k + 1, args, c, n);
      }
    }
  }

  lemma WalkStep(m: Matcher, path: seq<byte>, from: nat, trees: seq<Tree>, k: nat)
    requires from <= |path| && k < |trees|
    ensures Walk(m, path, from, trees, k) == Turn(m, path, from, trees[k], k) + Walk(m, path, from, trees, k + 1)
  {
  }

  lemma WalkDone(m: Matcher, path: seq<byte>, from: nat, trees: seq<Tree>)
    requires from <= |path|
    ensures Walk(m, path, from, trees, |trees|) == []
  {
  }

  /** The priorities have no trees below them, so a longer path makes no call there. */
  lemma {:induction false} WalkTooDeep(m: Matcher, path: seq<byte>, from: nat, k: nat)
    requires from <= |path| && SlashFrom(path, from) < |path| && k <= PRIORITIES
    ensures Walk(m, path, from, PriorityTrees(), k) == []
    decreases PRIORITIES - k
  {
    hide Decimal;
    if k < PRIORITIES { WalkTooDeep(m, path, from, k + 1); }
  }

  /** The pairs addressed below the channels, by the segments from `from` on. */
  function PairsBelow(m: Matcher, path: seq<byte>, from: nat, k: nat): seq<(nat, nat)>
    requires from <= |path|
  {
    var slash := SlashFrom(path, from);
    if slash < |path| && SlashFrom(path, slash + 1) == |path| then
      PairsFrom(m, path[from..slash], path[slash + 1..], k)
    else []
  }

  /** What one matched channel does. */
  function ChannelCalls(m: Matcher, path: seq<byte>, from: nat, k: nat): seq<Call>
    requires from <= |path| && k < CHANNELS
  {
    var slash := SlashFrom(path, from);
    [Call(OnChannel, k)] + (if slash < |path| then Walk(m, path, slash + 1, PriorityTrees(), 0) else [])
  }

  lemma ChannelStep(m: Matcher, path: seq<byte>, from: nat, k: nat, args: seq<Arg>, c: Cur, n: nat)
    requires from <= |path| && k < CHANNELS && Sync(args, c, n)
    ensures var slash := SlashFrom(path, from);
            var ps := if slash < |path| && SlashFrom(path, slash + 1) == |path|
                      then PrioritiesFrom(m, path[slash + 1..], k, 0) else [];
            var d := DoAll(args, c, ChannelCalls(m, path, from, k));
            && d.table == Assign(args, c.table, ps, n) && Sync(args, d, n + |ps|)
  {
    hide Walk, Latest, PrioritiesFrom;
    var slash := SlashFrom(path, from);
    var e := c.(channel := k);
    assert Sync(args, e, n);
    DoAllAppend(args, c, [Call(OnChannel, k)], ChannelCalls(m, path, from, k)[1..]);
    assert [Call(OnChannel, k)][1..] == [];
    assert DoAll(args, c, [Call(OnChannel, k)]) == e;
    if slash < |path| {
      if SlashFrom(path, slash + 1) == |path| {
        WalkPriorities(m, path, slash + 1, 0, args, e, n);
      } else {
        WalkTooDeep(m, path, slash + 1, 0);
      }
    }
  }

  lemma WalkChannelTurn(m: Matcher, path: seq<byte>, from: nat, k: nat)
    requires from <= |path| && k < CHANNELS
    ensures Walk(m, path, from, ChannelTrees(), k)
            == (if m(path[from..SlashFrom(path, from)], Decimal(k)) then ChannelCalls(m, path, from, k) else [])
               + Walk(m, path, from, ChannelTrees(), k + 1)
  {
    hide Decimal;
    assert |PriorityTrees()| > 0;
  }

  lemma {:induction false} WalkChannels(m: Matcher, path: seq<byte>, from: nat, k: nat,
                                        args: seq<Arg>, c: Cur, n: nat)
    requires from <= |path| && k <= CHANNELS && Sync(args, c, n)
    ensures DoAll(args, c, Walk(m, path, from, ChannelTrees(), k)).table
            == Assign(args, c.table, PairsBelow(m, path, from, k), n)
    decreases CHANNELS - k
  {
    hide Latest, Decimal, Do, Sync, ChannelCalls, PrioritiesFrom;
    if k < CHANNELS {
      var slash := SlashFrom(path, from);
      var rest := Walk(m, path, from, ChannelTrees(), k + 1);
      WalkChannelTurn(m, path, from, k);
      if m(path[from..slash], Decimal(k)) {
        var calls := ChannelCalls(m, path, from, k);
        var ps := if slash < |path| && SlashFrom(path, slash + 1) == |path|
                  then PrioritiesFrom(m, path[slash + 1..], k, 0) else [];
        ChannelStep(m, path, from, k, args, c, n);
        WalkChannels(m, path, from, k + 1, args, DoAll(args, c, calls), n + |ps|);
        DoAllAppend(args, c, calls, rest);
        AssignAppend(args, c.table, ps, PairsBelow(m, path, from, k + 1), n);
        assert PairsBelow(m, path, from, k) == ps + PairsBelow(m, path, from, k + 1);
      } else {
        assert [] + rest == rest;
        WalkChannels(m, path, from, k + 1, args, c, n);
        assert PairsBelow(m, path, from, k) == PairsBelow(m, path, from, k + 1);
      }
    }
  }

  /** The tree walk, whatever the matcher, does to the table exactly what the message means. */
  lemma WalkIsApply(m: Matcher, t: Table, msg: Message)
    requires |msg.path| > 0
    ensures DoAll(msg.args, Cur(0, 0, false, 0, t), Walk(m, msg.path, 1, RootTrees(), 0)).table == Apply(m, t, msg)
  {
    hide Decimal, Assign, Do, PairsFrom, Walk, Pairs, SlashFrom, Sync, ChannelTrees;
    var path := msg.path;
    var c := Cur(0, 0, false, 0, t);
    var slash := SlashFrom(path, 1);
    SyncStart(msg.args, t);
    RootWalk(m, path);
    RootPairs(m, path);
    if m(path[1..slash], DMX) && slash < |path| {
      WalkChannels(m, path, slash + 1, 0, msg.args, c, 0);
    } else {
      assert DoAll(msg.args, c, []) == c;
      AssignNothing(msg.args, t);
    }
  }

  lemma SyncStart(args: seq<Arg>, t: Table)
    ensures Sync(args, Cur(0, 0, false, 0, t), 0)
  {
  }

  lemma AssignNothing(args: seq<Arg>, t: Table)
    ensures Assign(args, t, [], 0) == t
  {
  }

  lemma RootWalk(m: Matcher, path: seq<byte>)
    requires |path| > 0
    ensures var slash := SlashFrom(path, 1);
            Walk(m, path, 1, RootTrees(), 0)
            == if m(path[1..slash], DMX) && slash < |path| then Walk(m, path, slash + 1, ChannelTrees(), 0) else []
  {
    hide Walk, Turn, SlashFrom, Decimal;
    OneTree(m, path, Tree(DMX, NoBranch, ChannelTrees()));
    InnerTurn(m, path, DMX, ChannelTrees());
  }

  lemma OneTree(m: Matcher, path: seq<byte>, tree: Tree)
    requires |path| > 0
    ensures Walk(m, path, 1, [tree], 0) == Turn(m, path, 1, tree, 0)
  {
    hide Walk, Turn;
    var calls := Turn(m, path, 1, tree, 0);
    WalkStep(m, path, 1, [tree], 0);
    WalkDone(m, path, 1, [tree]);
    assert calls + [] == calls;
  }

  lemma InnerTurn(m: Matcher, path: seq<byte>, name: seq<byte>, trees: seq<Tree>)
    requires |path| > 0 && |trees| > 0
    ensures var slash := SlashFrom(path, 1);
            Turn(m, path, 1, Tree(name, NoBranch, trees), 0)
            == if m(path[1..slash], name) && slash < |path| then Walk(m, path, slash + 1, trees, 0) else []
  {
    hide Walk, SlashFrom;
    var slash := SlashFrom(path, 1);
    if slash < |path| {
      var below := Walk(m, path, slash + 1, trees, 0);
      assert [] + below == below;
    }
  }

  lemma SegmentsStep(path: seq<byte>, from: nat)
    requires from <= |path|
    ensures var s, slash := Segments(path, from), SlashFrom(path, from);
            && |s| >= 1 && s[0] == path[from..slash]
            && (|s| == 1 <==> slash == |path|)
            && (slash < |path| ==> |s| == 1 + |Segments(path, slash + 1)| && s[1..] == Segments(path, slash + 1))
  {
  }

  lemma SegmentPair(path: seq<byte>, from: nat)
    requires from <= |path| && SlashFrom(path, from) < |path|
    ensures var s, slash := Segments(path, from), SlashFrom(path, from);
            && (|s| == 2 <==> SlashFrom(path, slash + 1) == |path|)
            && (|s| == 2 ==> s[0] == path[from..slash] && s[1] == path[slash + 1..])
  {
    hide Segments, SlashFrom;
    var slash := SlashFrom(path, from);
    SegmentsStep(path, from);
    SegmentsStep(path, slash + 1);
    assert path[slash + 1..|path|] == path[slash + 1..];
  }

  lemma RootPairs(m: Matcher, path: seq<byte>)
    requires |path| > 0
    ensures var slash := SlashFrom(path, 1);
            && (m(path[1..slash], DMX) && slash < |path| ==> Pairs(m, path) == PairsBelow(m, path, slash + 1, 0))
            && (!m(path[1..slash], DMX) || slash == |path| ==> Pairs(m, path) == [])
  {
    hide PairsFrom, Segments, SlashFrom, Pairs;
    var slash := SlashFrom(path, 1);
    if slash < |path| && SlashFrom(path, slash + 1) < |path| {
      hide PairsBelow;
      RootPairsBelow(m, path);
    } else {
      ShortPath(m, path);
    }
  }

  lemma ShortPath(m: Matcher, path: seq<byte>)
    requires |path| > 0
    requires SlashFrom(path, 1) < |path| ==> SlashFrom(path, SlashFrom(path, 1) + 1) == |path|
    ensures Pairs(m, path) == []
  {
    hide PairsFrom, Segments, SlashFrom;
    SegmentsStep(path, 1);
    if SlashFrom(path, 1) < |path| { SegmentsStep(path, SlashFrom(path, 1) + 1); }
  }

  lemma RootPairsBelow(m: Matcher, path: seq<byte>)
    requires |path| > 0 && SlashFrom(path, 1) < |path|
    requires SlashFrom(path, SlashFrom(path, 1) + 1) < |path|
    ensures var slash := SlashFrom(path, 1);
            Pairs(m, path) == if m(path[1..slash], DMX) then PairsBelow(m, path, slash + 1, 0) else []
  {
    hide PairsFrom, Segments, SlashFrom;
    var s, slash := Segments(path, 1), SlashFrom(path, 1);
    SegmentsStep(path, 1);
    SegmentPair(path, slash + 1);
    if |s| == 3 {
      assert s[1] == s[1..][0] && s[2] == s[1..][1];
      assert PairsBelow(m, path, slash + 1, 0) == PairsFrom(m, s[1], s[2], 0);
    } else {
      assert Pairs(m, path) == [] && PairsBelow(m, path, slash + 1, 0) == [];
    }
  }
}
