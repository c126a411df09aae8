/** The dispatch state of osc2ftdidmx.c: the branches, the tree walk that calls them, and the slots. */
module State {
  import opened Bytes
  import opened Osc
  import opened Reader
  import opened Slots
  import opened Dispatch

  /** Every (channel, priority) pair there is. */
  ghost function Grid(): set<(nat, nat)> {
    set c: nat, p: nat | c < CHANNELS && p < PRIORITIES :: (c, p)
  }

  /** Branches sit at indices that name a channel or a priority. */
  predicate Fits(trees: seq<Tree>) {
    forall k | 0 <= k < |trees| ::
      && (trees[k].branch == OnChannel ==> k < CHANNELS)
      && (trees[k].branch == OnPriority ==> k < PRIORITIES)
      && Fits(trees[k].trees)
  }

  lemma RootFits()
    ensures Fits(RootTrees())
  {
    assert Fits(PriorityTrees());
    assert Fits(ChannelTrees());
  }

  ghost function TableOf(lives: seq<map<nat, byte>>): Table
    requires |lives| == CHANNELS
  {
    map k | k in Grid() && k.1 in lives[k.0] :: lives[k.0][k.1]
  }

  /** Changing one priority of one channel changes that entry of the table only. */
  lemma TableChange(lives: seq<map<nat, byte>>, c: nat, p: nat, v: Option<byte>)
    requires |lives| == CHANNELS && c < CHANNELS && p < PRIORITIES
    ensures var live := if v.Some? then lives[c][p := v.value] else lives[c] - {p};
            TableOf(lives[c := live]) == Put(TableOf(lives), (c, p), v)
  {
    var live := if v.Some? then lives[c][p := v.value] else lives[c] - {p};
    var t, u := TableOf(lives[c := live]), Put(TableOf(lives), (c, p), v);
    assert (c, p) in Grid();
    forall k: (nat, nat)
      ensures k in t <==> k in u
      ensures k in t && k in u ==> t[k] == u[k]
    {
      if k.0 == c && k.1 != p { assert k != (c, p); }
    }
  }

  class DmxState {
    const matches: Matcher
    const slots: seq<Slot>
    ghost const objects: set<object>    // the slots and their arrays
    var curChannel: nat
    var curValue: byte
    var curSet: bool
    var curReader: OscReader
    var curArg: ArgCursor?
    ghost var msg: Message              // what the cursor iterates
    ghost var base: nat
    ghost var next: nat                 // arguments taken so far

    ghost predicate SlotsValid()
      reads objects
    {
      && |slots| == CHANNELS
      && (forall i | 0 <= i < CHANNELS :: slots[i] in objects && slots[i].data in objects && slots[i].Valid())
      && (forall i, j | 0 <= i < j < CHANNELS :: slots[i] != slots[j] && slots[i].data != slots[j].data)
      && this !in objects
    }

    ghost predicate CursorValid()
      reads this, curReader, curArg
    {
      && curArg != null && curReader !in objects && curArg !in objects
      && curArg.Reads(curReader, msg, base, next)
      && curChannel < CHANNELS
    }

    ghost function Lives(): (lives: seq<map<nat, byte>>)
      requires SlotsValid()
      reads objects
      ensures |lives| == CHANNELS && forall i | 0 <= i < CHANNELS :: lives[i] == slots[i].Live()
    {
      seq(CHANNELS, i requires 0 <= i < CHANNELS && SlotsValid() reads objects => slots[i].Live())
    }

    /** The live priorities of all channels with their values. */
    ghost function Table(): Table
      requires SlotsValid()
      reads objects
    {
      TableOf(Lives())
    }

    /** The cursor moved at most; it iterates the same message still. */
    twostate predicate SameCursor()
      reads this
    {
      curReader == old(curReader) && curArg == old(curArg) && msg == old(msg)
    }

    ghost function Abs(): Cur
      requires SlotsValid()
      reads this, objects
    {
      Cur(curChannel, curValue, curSet, next, Table())
    }

    constructor (matches: Matcher)
      ensures SlotsValid() && fresh(objects) && Table() == map[] && this.matches == matches
    {
      this.matches := matches;
      var all, objs := NewSlots();
      slots := all;
      objects := objs;
      curChannel, curValue, curSet := 0, 0, false;
      curReader := new OscReader([], 0, 0);
      curArg := null;
      msg, base, next := Message([], []), 0, 0;
      new;
    }

    static method NewSlots() returns (all: seq<Slot>, ghost objs: set<object>)
      ensures |all| == CHANNELS && fresh(objs)
      ensures forall i | 0 <= i < |all| ::
                all[i] in objs && all[i].data in objs && all[i].Valid() && all[i].Live() == map[]
      ensures forall i, j | 0 <= i < j < |all| :: all[i] != all[j] && all[i].data != all[j].data
    {
      hide Has, Bit;
      all, objs := [], {};
      while |all| < CHANNELS
        invariant |all| <= CHANNELS && fresh(objs)
        invariant forall i | 0 <= i < |all| ::
                    all[i] in objs && all[i].data in objs && all[i].Valid() && all[i].Live() == map[]
        invariant forall i, j | 0 <= i < j < |all| :: all[i] != all[j] && all[i].data != all[j].data
      {
        var slot := new Slot();
        all := all + [slot];
        objs := objs + {slot, slot.data};
      }
    }

    /** Set or clear one slot's priority. */
    method Assign(c: nat, p: nat, v: Option<byte>)
      requires SlotsValid() && c < CHANNELS && p < PRIORITIES
      modifies objects
      ensures SlotsValid() && Table() == Put(old(Table()), (c, p), v)
    {
      hide Has, Bit;
      ghost var lives := Lives();
      var slot := slots[c];
      if v.Some? {
        slot.SetVal(p, v.value);
      } else {
        slot.ClrVal(p);
      }
      TableChange(lives, c, p, v);
      assert Lives() == lives[c := slot.Live()];
    }

    /** The branch of a priority node: take the next argument, then set or clear the slot. */
    method Priority(prio: nat)
      requires SlotsValid() && CursorValid() && prio < PRIORITIES
      modifies `curValue, `curSet, `curArg, `next, curReader`ptr, curArg, objects
      ensures SlotsValid() && CursorValid() && SameCursor()
      ensures Abs() == Do(msg.args, old(Abs()), Call(OnPriority, prio))
    {
      ghost var was := Abs();
      TakeArgument();
      Assign(curChannel, prio, if curSet then Some(curValue) else None);
    }

    method TakeArgument()
      requires SlotsValid() && CursorValid()
      modifies `curValue, `curSet, `curArg, `next, curReader`ptr, curArg
      ensures SlotsValid() && CursorValid() && SameCursor() && Table() == old(Table())
      ensures Abs() == TakeArg(msg.args, old(Abs()))
    {
      hide Table, Lives, ArgCursor.Reads;
      curArg.EndsAtEnd(curReader, msg, base, next);
      if curArg != null && !curArg.IsEnd(curReader) {
        if curReader.buf[curArg.typ] == TYPE_INT32 {
          curValue := U32Of(curArg.value.i) % 0x100;  // & 0xff
          curSet := true;
        }
        var ok := curReader.ArgNext(curArg, msg, base, next);
        next := next + 1;
        curArg := if ok then curArg else null;
      }
    }

    /** The branch of a channel node. */
    method Channel(index: nat)
      requires SlotsValid() && CursorValid() && index < CHANNELS
      modifies `curChannel
      ensures SlotsValid() && CursorValid() && SameCursor()
      ensures Abs() == Do(msg.args, old(Abs()), Call(OnChannel, index))
    {
      curChannel := index;
    }

    /** The recursive walk over the trees, running the branch of every node whose name the path's segment
        at `from` matches. */
    method TreesInternal(path: seq<byte>, from: nat, trees: seq<Tree>)
      requires SlotsValid() && CursorValid() && from <= |path| && Fits(trees)
      modifies `curChannel, `curValue, `curSet, `curArg, `next, curReader`ptr, curArg, objects
      ensures SlotsValid() && CursorValid() && SameCursor()
      ensures Abs() == DoAll(msg.args, old(Abs()), Walk(matches, path, from, trees, 0))
      decreases |path| - from, 1
    {
      hide Do, DoAll, Turn, Walk, SlotsValid, CursorValid, Abs, SlashFrom;
      ghost var c0 := Abs();
      ghost var done: seq<Call> := [];
      ghost var all := Walk(matches, path, from, trees, 0);
      var slash := SlashFrom(path, from);  // strchr
      assert [] + all == all;
      DoNothing(msg.args, c0);
      WalkDone(matches, path, from, trees);
      for k := 0 to |trees|
        invariant SlotsValid() && CursorValid() && SameCursor()
        invariant all == done + Walk(matches, path, from, trees, k)
        invariant Abs() == DoAll(msg.args, c0, done)
      {
        ghost var turn := Turn(matches, path, from, trees[k], k);
        ghost var rest := Walk(matches, path, from, trees, k + 1);
        WalkStep(matches, path, from, trees, k);
        Visit(path, from, slash, trees[k], k);
        DoAllAppend(msg.args, c0, done, turn);
        assert done + (turn + rest) == done + turn + rest;
        done := done + turn;
      }
      assert done + [] == done;
    }

    /** The body of the walk's loop. */
    method Visit(path: seq<byte>, from: nat, slash: nat, tree: Tree, k: nat)
      requires SlotsValid() && CursorValid() && from <= |path| && slash == SlashFrom(path, from)
      requires tree.branch == OnChannel ==> k < CHANNELS
      requires tree.branch == OnPriority ==> k < PRIORITIES
      requires Fits(tree.trees)
      modifies `curChannel, `curValue, `curSet, `curArg, `next, curReader`ptr, curArg, objects
      ensures SlotsValid() && CursorValid() && SameCursor()
      ensures Abs() == DoAll(msg.args, old(Abs()), Turn(matches, path, from, tree, k))
      decreases |path| - from, 0
    {
      hide Do, DoAll, Walk, SlotsValid, CursorValid, Abs, Fits;
      ghost var c0 := Abs();
      DoNothing(msg.args, c0);
      if matches(path[from..slash], tree.name) {
        if |tree.trees| > 0 && slash < |path| {
          ghost var calls := Walk(matches, path, slash + 1, tree.trees, 0);
          ghost var first: seq<Call> := [];
          if tree.branch != NoBranch {
            Run(tree.branch, k);
            first := [Call(tree.branch, k)];
          }
          assert Abs() == DoAll(msg.args, c0, first);
          TreesInternal(path, slash + 1, tree.trees);
          DoAllAppend(msg.args, c0, first, calls);
          assert Turn(matches, path, from, tree, k) == first + calls;
        } else if tree.branch != NoBranch && slash == |path| {
          Run(tree.branch, k);
        }
      }
    }

    static lemma DoNothing(args: seq<Arg>, c: Cur)
      ensures DoAll(args, c, []) == c
    {
    }

    /** tree->branch(...) */
    method Run(branch: Branch, index: nat)
      requires SlotsValid() && CursorValid() && branch != NoBranch
      requires index < if branch == OnChannel then CHANNELS else PRIORITIES
      modifies `curChannel, `curValue, `curSet, `curArg, `next, curReader`ptr, curArg, objects
      ensures SlotsValid() && CursorValid() && SameCursor()
      ensures Abs() == Do(msg.args, old(Abs()), Call(branch, index))
      ensures Abs() == DoAll(msg.args, old(Abs()), [Call(branch, index)])
    {
      ghost var c := Abs();
      match branch
      case OnChannel => Channel(index);
      case OnPriority => Priority(index);
    }

    /** lv2_osc_reader_match: find the message's address and walk the trees behind its leading slash. */
    method Match(reader: OscReader, len: nat, trees: seq<Tree>)
      requires SlotsValid() && CursorValid() && Fits(trees)
      requires reader != curReader && reader !in objects && reader.Valid()
      requires MsgAt(reader.buf, reader.ptr, msg) && len == MsgSize(msg) && reader.ptr + len <= reader.end
      requires |msg.path| > 0
      modifies `curChannel, `curValue, `curSet, `curArg, `next, curReader`ptr, curArg, objects, reader
      ensures SlotsValid() && CursorValid()
      ensures Abs() == DoAll(msg.args, old(Abs()), Walk(matches, msg.path, 1, trees, 0))
    {
      hide MsgAt, MsgSize, Fits, Walk, DoAll, Table;
      var arg := new ArgCursor();
      var ok := reader.ArgBegin(arg, len, msg);
      TreesInternal(arg.path, 1, trees);
    }

    /** Run one message on the slots. */
    method HandleMessage(reader: OscReader, len: nat, ghost m: Message)
      requires SlotsValid() && reader !in objects && reader.Valid()
      requires MessageOk(m) && AllReadBack(m.args) && |m.path| > 0
      requires MsgAt(reader.buf, reader.ptr, m) && len == MsgSize(m) && reader.ptr + len <= reader.end
      modifies this, objects, reader
      ensures SlotsValid() && Table() == Apply(matches, old(Table()), m)
    {
      hide MsgAt, MsgSize, MessageOk, AllReadBack, Fits, Walk, DoAll, Table, Apply, CursorValid;
      ghost var t := Table();
      BeginMessage(reader, len, m);
      RootFits();
      WalkIsApply(matches, t, m);
      Match(reader, len, RootTrees());
    }

    /** Reset the dispatch state and stand at the message's first argument. */
    method BeginMessage(reader: OscReader, len: nat, ghost m: Message)
      requires SlotsValid() && reader !in objects && reader.Valid()
      requires MessageOk(m) && AllReadBack(m.args)
      requires MsgAt(reader.buf, reader.ptr, m) && len == MsgSize(m) && reader.ptr + len <= reader.end
      modifies this
      ensures SlotsValid() && CursorValid() && msg == m && fresh(curReader) && fresh(curArg)
      ensures Abs() == Cur(0, 0, false, 0, old(Table()))
    {
      hide MsgAt, MsgSize, MessageOk, AllReadBack, Table, Slot.Valid, ArgCursor.Reads;
      curChannel, curValue, curSet := 0, 0, false;
      curReader, curArg := FirstArgument(reader, len, m);
      msg, base, next := m, reader.ptr, 0;
    }

    /** OSC_READER_MESSAGE_BEGIN on a copy of the reader. */
    static method FirstArgument(reader: OscReader, len: nat, ghost m: Message)
      returns (r: OscReader, arg: ArgCursor?)
      requires reader.Valid() && MessageOk(m) && AllReadBack(m.args)
      requires MsgAt(reader.buf, reader.ptr, m) && len == MsgSize(m) && reader.ptr + len <= reader.end
      ensures fresh(r) && arg != null && fresh(arg) && arg.Reads(r, m, reader.ptr, 0)
    {
      hide MsgAt, MsgSize, MessageOk, AllReadBack, ArgCursor.Reads;
      r := new OscReader.Clone(reader);
      var cur := new ArgCursor();
      var ok := r.ArgBegin(cur, len, m);
      arg := if ok then cur else null;
    }
  }
}
