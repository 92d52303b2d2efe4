// The transmit rings as a protocol between the main loop, which copies blocks and then
// publishes, and the interrupt, which may read or purge between any two of those steps
// (source/L1L2_radio.cpp:413-463, 484-588, 610-643, 730-737; source/signaling.cpp:510-529;
// source/SI4463.cpp:930-964, 981).
module QueueRuns {
  import opened Bytes
  import opened TxQueue

  // Ring size and the filling above which a data or a signalling push is refused.
  datatype Config = Config(size: nat, dataLimit: nat, signalLimit: nat)

  const INTERN := Config(128, 110, 120)
  const EXTERN := Config(1024, 950, 1000)

  predicate Known(c: Config) { c == INTERN || c == EXTERN }

  // Where the main loop stands inside radio_flush_TX_FIFO: its three stores are interruptible.
  datatype Phase = Normal | WrCleared | RdCleared

  datatype State = State(
    ring: seq<Block>, wr: nat, rd: nat, last: nat, phase: Phase,
    todo: seq<Frame>,      // frames the current push still has to write
    copied: nat,           // blocks of todo[0] already copied
    published: seq<Frame>, // since the last flush
    got: seq<Frame>        // what the interrupt found in the cells it passed, since the last flush
  )

  predicate Init(c: Config, s: State) {
    RingSize(c.size) && |s.ring| == c.size && s.wr == s.rd == s.last == 0
    && s.phase == Normal && s.todo == [] && s.copied == 0 && s.published == [] && s.got == []
  }

  // ----- steps -----

  datatype Step =
    | BeginData(frames: seq<Frame>)
    | BeginSignal(frame: Frame)
    | CopyBlock
    | Publish
    | ReadOrPurge
    | ClearWr
    | ClearRd
    | ClearLast

  predicate Enabled(c: Config, s: State, t: Step) {
    match t
    case BeginData(frames) => Free(s) && s.wr - s.rd <= c.dataLimit && |frames| <= 6 && AllWhole(frames)
    case BeginSignal(frame) => Free(s) && s.wr - s.rd <= c.signalLimit && Whole(frame)
    case CopyBlock => s.phase == Normal && s.todo != [] && s.copied < |s.todo[0]|
    case Publish => s.phase == Normal && s.todo != [] && s.copied == |s.todo[0]|
    case ReadOrPurge => s.rd < s.last
    case ClearWr => Free(s)
    case ClearRd => s.phase == WrCleared
    case ClearLast => s.phase == RdCleared
  }

  // The main loop is neither writing nor flushing.
  predicate Free(s: State) {
    s.phase == Normal && s.todo == []
  }

  function Apply(c: Config, s: State, t: Step): State
    requires RingSize(c.size) && |s.ring| == c.size && Enabled(c, s, t)
  {
    match t
    case BeginData(frames) => s.(todo := frames)
    case BeginSignal(frame) => s.(todo := [frame])
    case CopyBlock =>
      s.(ring := s.ring[Slot(c.size, s.wr) := s.todo[0][s.copied]], wr := s.wr + 1, copied := s.copied + 1)
    case Publish => s.(last := s.wr, published := s.published + [s.todo[0]], todo := s.todo[1..], copied := 0)
    case ReadOrPurge =>
      var n := BlocksFor(StoredSize(s.ring[Slot(c.size, s.rd)][1]));
      s.(rd := s.rd + n, got := s.got + [Cells(s.ring, s.rd, n)])
    case ClearWr => s.(wr := 0, phase := WrCleared)
    case ClearRd => s.(rd := 0, phase := RdCleared)
    case ClearLast => s.(last := 0, phase := Normal, published := [], got := [])
  }

  // A packet is begun on up to 110 unread blocks of the internal ring or 950 of the external one, a
  // signalling frame on up to 120 or 1000, each while nothing else is being written or flushed.
  lemma Limits(s: State, frames: seq<Frame>, frame: Frame)
    requires AllWhole(frames) && |frames| <= 6 && Whole(frame) && s.phase == Normal && s.todo == []
    ensures Enabled(INTERN, s, BeginData(frames)) <==> s.wr - s.rd <= 110
    ensures Enabled(EXTERN, s, BeginData(frames)) <==> s.wr - s.rd <= 950
    ensures Enabled(INTERN, s, BeginSignal(frame)) <==> s.wr - s.rd <= 120
    ensures Enabled(EXTERN, s, BeginSignal(frame)) <==> s.wr - s.rd <= 1000
  {}

  // ----- the invariant -----

  // Blocks of the current push not yet copied.
  function Owed(s: State): int {
    |Flatten(s.todo)| - s.copied
  }

  // A flush first hides the write pointer, then the read pointer; until the third store the
  // interrupt must not move the latter.
  predicate Inv(c: Config, s: State) {
    && RingSize(c.size) && |s.ring| == c.size && AllWhole(s.published) && s.got <= s.published
    && match s.phase
       case Normal => Filled(c, s)
       case WrCleared => s.wr == 0 && s.todo == [] && Filled(c, s.(wr := s.last))
       case RdCleared => s.wr == 0 && s.todo == [] && s.copied == 0 && s.rd == 0
  }

  predicate Filled(c: Config, s: State)
    requires RingSize(c.size) && |s.ring| == c.size && AllWhole(s.published) && s.got <= s.published
  {
    && s.rd <= s.last <= s.wr
    && AllWhole(s.todo)
    && (if s.todo == [] then s.copied == 0 else s.copied <= |s.todo[0]|)
    && s.wr + Owed(s) <= s.rd + c.size
    && s.wr - s.last == s.copied
    && Cells(s.ring, s.rd, s.wr - s.rd)
       == Flatten(s.published[|s.got|..]) + (if s.todo == [] then [] else s.todo[0][..s.copied])
  }

  lemma {:induction false} FlattenBound(fs: seq<Frame>)
    requires AllWhole(fs)
    ensures |Flatten(fs)| <= 3 * |fs|
  {
    if fs != [] {
      assert Whole(fs[0]);
      FlattenBound(fs[1..]);
    }
  }

  lemma CopyKeeps(c: Config, s: State)
    requires Inv(c, s) && Enabled(c, s, CopyBlock)
    ensures Inv(c, Apply(c, s, CopyBlock))
  {
    var row := s.todo[0][s.copied];
    assert Owed(s) >= 1;
    CellsPut(s.ring, s.rd, s.wr - s.rd, row);
    assert s.todo[0][..s.copied + 1] == s.todo[0][..s.copied] + [row];
  }

  lemma PublishKeeps(c: Config, s: State)
    requires Inv(c, s) && Enabled(c, s, Publish)
    ensures Inv(c, Apply(c, s, Publish))
  {
    var f := s.todo[0];
    var unread := s.published[|s.got|..];
    assert (s.published + [f])[|s.got|..] == unread + [f];
    FlattenAppend(unread, f);
    assert f[..|f|] == f;
  }

  // The state as it was before a flush hid the write pointer.
  function Seen(s: State): State {
    if s.phase == WrCleared then s.(wr := s.last) else s
  }

  // The cells the interrupt passes hold the oldest unread frame.
  lemma ReadsOldest(c: Config, s: State)
    requires Inv(c, s) && s.rd < s.last && s.phase != RdCleared
    ensures |s.got| < |s.published|
    ensures var f, wr := s.published[|s.got|], Seen(s).wr;
            && Whole(f) && BlocksFor(StoredSize(s.ring[Slot(c.size, s.rd)][1])) == |f|
            && Cells(s.ring, s.rd, |f|) == f && s.rd + |f| <= s.last <= wr
            && Cells(s.ring, s.rd + |f|, wr - s.rd - |f|)
               == Flatten(s.published[|s.got| + 1..]) + (if s.todo == [] then [] else s.todo[0][..s.copied])
  {
    var unread, wr := s.published[|s.got|..], Seen(s).wr;
    FlattenEmpty(unread);
    var tail := if s.todo == [] then [] else s.todo[0][..s.copied];
    assert Cells(s.ring, s.rd, wr - s.rd) == Flatten(unread) + tail;
    assert unread[1..] == s.published[|s.got| + 1..];
    OldestIs(c, s.ring, s.rd, wr - s.rd, unread, tail);
  }

  lemma OldestIs(c: Config, ring: seq<Block>, rd: nat, n: nat, unread: seq<Frame>, tail: seq<Block>)
    requires RingSize(c.size) && |ring| == c.size && unread != [] && AllWhole(unread)
    requires Cells(ring, rd, n) == Flatten(unread) + tail
    ensures var f := unread[0];
            && Whole(f) && BlocksFor(StoredSize(ring[Slot(c.size, rd)][1])) == |f| <= n - |tail|
            && Cells(ring, rd, |f|) == f
            && Cells(ring, rd + |f|, n - |f|) == Flatten(unread[1..]) + tail
  {
    hide AllWhole;
    var f, all := unread[0], Cells(ring, rd, n);
    FrontIs(all, f, Flatten(unread[1..]), tail);
    FirstWhole(unread);
    CellsTake(ring, rd, n, |f|);
    CellsDrop(ring, rd, n, |f|);
    assert all[0] == ring[Slot(c.size, rd)];
  }

  lemma FirstWhole(fs: seq<Frame>)
    requires fs != [] && AllWhole(fs)
    ensures Whole(fs[0])
  {}

  lemma FrontIs(all: seq<Block>, f: Frame, rest: seq<Block>, tail: seq<Block>)
    requires all == f + rest + tail
    ensures |f| <= |all| - |tail| && all[..|f|] == f && all[|f|..] == rest + tail
    ensures f != [] ==> all[0] == f[0]
  {
    assert f + rest + tail == f + (rest + tail);
  }

  lemma ReadKeeps(c: Config, s: State)
    requires Inv(c, s) && s.rd < s.last && s.phase != RdCleared
    ensures Inv(c, Apply(c, s, ReadOrPurge))
    ensures Apply(c, s, ReadOrPurge).got == s.got + [s.published[|s.got|]]
  {
    ReadsOldest(c, s);
    assert s.published[..|s.got| + 1] == s.got + [s.published[|s.got|]];
  }

  // Every step keeps the invariant, but for a read between the second and the third store of a
  // flush, which never does.
  lemma StepKeeps(c: Config, s: State, t: Step)
    requires Known(c) && Inv(c, s) && Enabled(c, s, t)
    ensures Inv(c, Apply(c, s, t)) <==> !(t.ReadOrPurge? && s.phase == RdCleared)
  {
    hide Cells, Whole, Slot, StoredSize;
    match t
    case BeginData(frames) =>
      FlattenBound(frames);
    case BeginSignal(frame) =>
      FlattenBound([frame]);
    case CopyBlock => CopyKeeps(c, s);
    case Publish => PublishKeeps(c, s);
    case ReadOrPurge => if s.phase != RdCleared { ReadKeeps(c, s); }
    case ClearWr =>
    case ClearRd =>
    case ClearLast => assert Cells(s.ring, 0, 0) == [];
  }

  // ----- runs -----

  predicate IsRun(c: Config, states: seq<State>, steps: seq<Step>) {
    |states| == |steps| + 1 && Init(c, states[0])
    && forall i | 0 <= i < |steps| ::
         |states[i].ring| == c.size && Enabled(c, states[i], steps[i]) && states[i + 1] == Apply(c, states[i], steps[i])
  }

  // A read or purge between the second and the third store of a flush.
  predicate Torn(states: seq<State>, steps: seq<Step>, i: nat)
    requires |states| == |steps| + 1 && i < |steps|
  {
    steps[i].ReadOrPurge? && states[i].phase == RdCleared
  }

  predicate Untorn(states: seq<State>, steps: seq<Step>, n: nat)
    requires |states| == |steps| + 1 && n <= |steps|
  {
    forall i | 0 <= i < n :: !Torn(states, steps, i)
  }

  predicate AllInv(c: Config, states: seq<State>, n: nat)
    requires n < |states|
  {
    forall i | 0 <= i <= n :: Inv(c, states[i])
  }

  lemma InitInv(c: Config, s: State)
    requires Known(c) && Init(c, s)
    ensures Inv(c, s)
  {
    assert Cells(s.ring, 0, 0) == [];
  }

  // A run keeps the invariant up to a state if and only if no read has torn a flush before it.
  lemma {:induction false} RunKeepsInv(c: Config, states: seq<State>, steps: seq<Step>, n: nat)
    requires Known(c) && IsRun(c, states, steps) && n < |states|
    ensures AllInv(c, states, n) <==> Untorn(states, steps, n)
  {
    if n == 0 {
      InitInv(c, states[0]);
    } else {
      RunKeepsInv(c, states, steps, n - 1);
      assert Untorn(states, steps, n) <==> Untorn(states, steps, n - 1) && !Torn(states, steps, n - 1);
      assert AllInv(c, states, n) <==> AllInv(c, states, n - 1) && Inv(c, states[n]);
      if Untorn(states, steps, n - 1) {
        StepKeeps(c, states[n - 1], steps[n - 1]);
      }
    }
  }

  // Under every interleaving that does not tear a flush the ring is never overrun, a copied block
  // never lands on an unread one, and the interrupt only ever takes whole published frames in
  // their order.
  lemma QueueSafe(c: Config, states: seq<State>, steps: seq<Step>, i: nat)
    requires Known(c) && IsRun(c, states, steps) && i < |states| && Untorn(states, steps, i)
    ensures var s := states[i];
            && (s.phase == Normal ==> s.rd <= s.last <= s.wr <= s.rd + c.size)
            && s.got <= s.published
            && (i < |steps| && steps[i].CopyBlock? ==>
                  forall p | s.rd <= p < s.wr :: Slot(c.size, p) != Slot(c.size, s.wr))
            && (i < |steps| && steps[i].ReadOrPurge? && !Torn(states, steps, i) ==>
                  |s.got| < |s.published| && states[i + 1].got == s.got + [s.published[|s.got|]])
  {
    RunKeepsInv(c, states, steps, i);
    var s := states[i];
    if i < |steps| && steps[i].CopyBlock? {
      assert Owed(s) >= 1;
      forall p | s.rd <= p < s.wr ensures Slot(c.size, p) != Slot(c.size, s.wr) {
        SlotDistinct(c.size, p, s.wr);
      }
    }
    if i < |steps| && steps[i].ReadOrPurge? && !Torn(states, steps, i) {
      ReadKeeps(c, s);
    }
  }

  // ----- flushing under interrupts -----

  predicate CanRead(c: Config, s: State, n: nat)
    requires RingSize(c.size) && |s.ring| == c.size
    decreases n
  {
    n == 0 || (s.rd < s.last && CanRead(c, Apply(c, s, ReadOrPurge), n - 1))
  }

  function ReadMany(c: Config, s: State, n: nat): (r: State)
    requires RingSize(c.size) && |s.ring| == c.size && CanRead(c, s, n)
    ensures r.ring == s.ring && r.last == s.last && r.phase == s.phase && r.wr == s.wr && r.todo == s.todo
    ensures r.copied == s.copied && r.published == s.published
    ensures if n == 0 then r == s else r.rd > s.rd
    decreases n
  {
    if n == 0 then s else ReadMany(c, Apply(c, s, ReadOrPurge), n - 1)
  }

  // A flush with a reads between its first two stores and b reads between its last two.
  function SecondStore(c: Config, s: State, a: nat): State
    requires RingSize(c.size) && |s.ring| == c.size && Free(s) && CanRead(c, Apply(c, s, ClearWr), a)
  {
    Apply(c, ReadMany(c, Apply(c, s, ClearWr), a), ClearRd)
  }

  function ThirdStore(c: Config, s: State, a: nat, b: nat): State
    requires RingSize(c.size) && |s.ring| == c.size && Free(s) && CanRead(c, Apply(c, s, ClearWr), a)
    requires CanRead(c, SecondStore(c, s, a), b)
  {
    Apply(c, ReadMany(c, SecondStore(c, s, a), b), ClearLast)
  }

  // A flush leaves the queue in order exactly when no read comes between its last two stores, and
  // one can come there exactly when anything has been published since the flush before, even if
  // all of it has been read. Otherwise the read pointer stays ahead of the two others.
  lemma FlushExactly(c: Config, s: State, a: nat, b: nat)
    requires Known(c) && Inv(c, s) && Free(s) && CanRead(c, Apply(c, s, ClearWr), a)
    requires CanRead(c, SecondStore(c, s, a), b)
    ensures Inv(c, ThirdStore(c, s, a, b)) <==> b == 0
    ensures b > 0 ==> ThirdStore(c, s, a, b).rd > ThirdStore(c, s, a, b).wr == ThirdStore(c, s, a, b).last == 0
    ensures CanRead(c, SecondStore(c, s, a), 1) <==> s.last > 0
  {
    var r := ThirdStore(c, s, a, b);
    assert Cells(r.ring, 0, 0) == [];
    assert CanRead(c, SecondStore(c, s, a), 1) <==> SecondStore(c, s, a).last > 0 by {
      assert s.last > 0 ==> CanRead(c, Apply(c, SecondStore(c, s, a), ReadOrPurge), 0);
    }
  }

  // ----- the bound is tight -----

  ghost predicate Reachable(c: Config, s: State) {
    exists states, steps :: IsRun(c, states, steps) && states[|steps|] == s
  }

  lemma ReachNext(c: Config, s: State, t: Step)
    requires Known(c) && Reachable(c, s) && |s.ring| == c.size && Enabled(c, s, t)
    ensures Reachable(c, Apply(c, s, t))
  {
    var states, steps :| IsRun(c, states, steps) && states[|steps|] == s;
    var longer, more := states + [Apply(c, s, t)], steps + [t];
    assert longer[0] == states[0];
    forall i | 0 <= i < |more|
      ensures |longer[i].ring| == c.size && Enabled(c, longer[i], more[i])
      ensures longer[i + 1] == Apply(c, longer[i], more[i])
    {
      if i < |steps| {
        assert longer[i] == states[i] && longer[i + 1] == states[i + 1] && more[i] == steps[i];
      }
    }
    assert IsRun(c, longer, more);
    assert longer[|more|] == Apply(c, s, t);
  }

  // Writing out everything a push still owes, without any interrupt.
  lemma {:induction false} Drain(c: Config, s: State) returns (r: State)
    requires Known(c) && Reachable(c, s) && |s.ring| == c.size && AllWhole(s.todo)
    requires s.phase == Normal && (if s.todo == [] then s.copied == 0 else s.copied <= |s.todo[0]|)
    ensures r.phase == Normal && Reachable(c, r) && |r.ring| == c.size && r.todo == [] && r.copied == 0 && r.rd == s.rd
    ensures r.wr == s.wr + Owed(s)
    decreases |Flatten(s.todo)| - s.copied, |s.todo|
  {
    if s.todo == [] {
      r := s;
    } else if s.copied < |s.todo[0]| {
      ReachNext(c, s, CopyBlock);
      r := Drain(c, Apply(c, s, CopyBlock));
    } else {
      ReachNext(c, s, Publish);
      r := Drain(c, Apply(c, s, Publish));
    }
  }

  function LongFrame(lengthByte: byte): (f: Frame)
    ensures |f| == BlocksFor(StoredSize(lengthByte)) && Whole(f)
  {
    var head: Block := seq(128, i => if i == 1 then lengthByte else 0);
    seq(BlocksFor(StoredSize(lengthByte)), i => head)
  }

  // The largest frame fills three blocks, and six of them are one 1509-byte packet.
  lemma {:induction false} SixLongFrames()
    ensures AllWhole(seq(6, i => LongFrame(255))) && |Flatten(seq(6, i => LongFrame(255)))| == 18
  {
    FlattenRepeat(LongFrame(255), 6);
  }

  lemma {:induction false} FlattenRepeat(f: Frame, n: nat)
    ensures |Flatten(seq(n, i => f))| == n * |f|
  {
    if n > 0 {
      var fs := seq(n, i => f);
      assert fs[1..] == seq(n - 1, i => f);
      FlattenRepeat(f, n - 1);
    }
  }

  lemma {:induction false} FillUp(c: Config, n: nat) returns (s: State)
    requires c == INTERN && 3 * n <= 111
    ensures Reachable(c, s) && |s.ring| == c.size && Free(s) && s.copied == 0 && s.rd == 0 && s.wr == 3 * n
    ensures n == 0 ==> s.published == [] && s.got == []
  {
    if n == 0 {
      s := State(seq(128, i => seq(128, j => 0)), 0, 0, 0, Normal, [], 0, [], []);
      var none: seq<Step> := [];
      assert IsRun(c, [s], none) && [s][|none|] == s;
    } else {
      s := FillUp(c, n - 1);
      ReachNext(c, s, BeginData([LongFrame(255)]));
      s := Apply(c, s, BeginData([LongFrame(255)]));
      FlattenRepeat(LongFrame(255), 1);
      assert seq(1, i => LongFrame(255)) == [LongFrame(255)];
      s := Drain(c, s);
    }
  }

  // Exactly 128 unread blocks are reachable: 110 of them and one more packet of six
  // three-block segments.
  lemma QueueBoundTight() returns (s: State)
    ensures Reachable(INTERN, s) && s.wr - s.rd == INTERN.size
  {
    s := FillUp(INTERN, 36);
    var two := LongFrame(100);
    ReachNext(INTERN, s, BeginData([two]));
    s := Apply(INTERN, s, BeginData([two]));
    FlattenRepeat(two, 1);
    assert seq(1, i => two) == [two];
    s := Drain(INTERN, s);
    var six := seq(6, i => LongFrame(255));
    SixLongFrames();
    ReachNext(INTERN, s, BeginData(six));
    s := Apply(INTERN, s, BeginData(six));
    s := Drain(INTERN, s);
  }

  // ----- a torn flush -----

  // One step of a run given by its states.
  lemma StepTo(s: State, t: Step, r: State)
    requires Reachable(INTERN, s) && |s.ring| == 128 && Enabled(INTERN, s, t) && r == Apply(INTERN, s, t)
    ensures Reachable(INTERN, r) && |r.ring| == 128
  {
    ReachNext(INTERN, s, t);
  }

  function Marked(lengthByte: byte): (b: Block)
    ensures b[1] == lengthByte && b[0] == 7
  {
    seq(128, i => if i == 1 then lengthByte else 7)
  }

  // A frame is written to the start of the ring while the interrupt is quiet.
  lemma WriteFirst(s: State, f: Frame) returns (r: State)
    requires Reachable(INTERN, s) && |s.ring| == 128 && Free(s) && s.wr == 0 && s.copied == 0 && Whole(f)
    ensures Reachable(INTERN, r) && |r.ring| == 128 && Free(r) && r.copied == 0 && r.wr == r.last == |f|
    ensures r.rd == s.rd && r.got == s.got && r.published == s.published + [f]
    ensures forall i | 0 <= i < |f| :: r.ring[i] == f[i]
  {
    hide Reachable;
    r := Apply(INTERN, s, BeginSignal(f));
    StepTo(s, BeginSignal(f), r);
    while r.copied < |f|
      invariant Copying(r, s, f)
      decreases |f| - r.copied
    {
      r := CopyNext(r, s, f);
    }
    var full := r;
    r := Apply(INTERN, r, Publish);
    StepTo(full, Publish, r);
  }

  ghost predicate Copying(r: State, s: State, f: Frame) {
    && Reachable(INTERN, r) && |r.ring| == 128 && r.phase == Normal && r.todo == [f]
    && r.wr == r.copied <= |f| <= 3 && r.rd == s.rd && r.got == s.got && r.published == s.published
    && forall i | 0 <= i < r.copied :: r.ring[i] == f[i]
  }

  lemma CopyNext(r: State, s: State, f: Frame) returns (t: State)
    requires Copying(r, s, f) && r.copied < |f|
    ensures Copying(t, s, f) && t.copied == r.copied + 1
  {
    hide Reachable;
    t := Apply(INTERN, r, CopyBlock);
    StepTo(r, CopyBlock, t);
  }

  // The interrupt takes one block that announces a single block.
  lemma TakeOne(s: State) returns (r: State)
    requires Reachable(INTERN, s) && |s.ring| == 128 && s.rd < s.last && s.rd < 128
    requires BlocksFor(StoredSize(s.ring[s.rd][1])) == 1
    ensures Reachable(INTERN, r) && r == s.(rd := s.rd + 1, got := s.got + [[s.ring[s.rd]]])
  {
    r := Apply(INTERN, s, ReadOrPurge);
    StepTo(s, ReadOrPurge, r);
    assert Cells(s.ring, s.rd, 1) == [s.ring[s.rd]];
  }

  // A frame of one block is written and read, so that the queue is empty.
  lemma ReadOnce() returns (s: State)
    ensures Reachable(INTERN, s) && |s.ring| == 128 && Free(s) && s.copied == 0 && s.rd == s.last == 1
    ensures s.published == s.got == [[Marked(0)]] && s.ring[0] == Marked(0)
  {
    hide Reachable;
    var start := FillUp(INTERN, 0);
    var written := WriteFirst(start, [Marked(0)]);
    s := TakeOne(written);
  }

  // The flush that follows lets the interrupt take it a second time.
  lemma FlushRepeats() returns (s: State)
    ensures Reachable(INTERN, s) && |s.ring| == 128 && s.phase == RdCleared && s.wr == 0 && s.rd == 1
    ensures s.todo == [] && s.copied == 0
    ensures s.published == [[Marked(0)]] && s.got == [[Marked(0)], [Marked(0)]]
  {
    hide Reachable;
    var empty := ReadOnce();
    var hidden, cleared := Apply(INTERN, empty, ClearWr), Apply(INTERN, Apply(INTERN, empty, ClearWr), ClearRd);
    StepTo(empty, ClearWr, hidden);
    StepTo(hidden, ClearRd, cleared);
    s := TakeOne(cleared);
  }

  // And the frame written next is read from its second block on.
  lemma FlushTears() returns (s: State)
    ensures Reachable(INTERN, s)
    ensures s.published == [[Marked(255), Marked(1), Marked(2)]] && s.got == [[Marked(1)]]
  {
    var g := [Marked(255), Marked(1), Marked(2)];
    var repeated := FlushRepeats();
    var flushed := Apply(INTERN, repeated, ClearLast);
    StepTo(repeated, ClearLast, flushed);
    var written := WriteFirst(flushed, g);
    s := TakeOne(written);
  }
}
