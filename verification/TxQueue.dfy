// The block rings between the main loop and the transmit interrupt: the internal ring of
// 128 blocks (source/L1L2_radio.cpp:484-504, 556-644; source/SI4463.cpp:930-964) and the
// external ring of 1024 blocks (source/L1L2_radio.cpp:520-554, 658-709).
module TxQueue {
  import opened Bytes

  // ----- blocks and frames -----

  type Block = b: seq<byte> | |b| == 128 witness seq(128, i => 0)

  // A frame as it lies in a ring: one to three blocks, the count being announced by
  // the length byte (byte 1 of the first block).
  type Frame = seq<Block>

  function BlocksFor(size: nat): (n: nat)
    ensures 1 <= n <= 3
  {
    if size <= 128 then 1 else if size <= 256 then 2 else 3
  }

  // timer byte + length byte + TDMA byte + encoded bytes, from the length byte.
  function StoredSize(lengthByte: byte): nat {
    lengthByte + 92
  }

  predicate Whole(f: Frame) {
    |f| > 0 && |f| == BlocksFor(StoredSize(f[0][1]))
  }

  predicate AllWhole(fs: seq<Frame>) {
    forall f | f in fs :: Whole(f)
  }

  function Flatten(fs: seq<Frame>): seq<Block> {
    if fs == [] then [] else fs[0] + Flatten(fs[1..])
  }

  lemma {:induction false} FlattenAppend(fs: seq<Frame>, f: Frame)
    ensures Flatten(fs + [f]) == Flatten(fs) + f
  {
    if fs == [] {
      assert fs + [f] == [f];
      assert Flatten([f]) == f + Flatten([]);
    } else {
      assert (fs + [f])[1..] == fs[1..] + [f];
      FlattenAppend(fs[1..], f);
    }
  }

  lemma FlattenEmpty(fs: seq<Frame>)
    requires AllWhole(fs)
    ensures Flatten(fs) == [] <==> fs == []
  {
    if fs != [] {
      assert Whole(fs[0]);
    }
  }

  // The bytes of the frame proper: what follows in the last block is whatever the
  // fixed-size copies dragged along.
  function Raw(b: Block): seq<byte> { b }

  function FrameBytes(f: Frame): seq<byte> {
    if f == [] then [] else Raw(f[0]) + FrameBytes(f[1..])
  }

  // ----- rings -----

  // The two ring sizes of the firmware.
  predicate RingSize(n: nat) { n == 128 || n == 1024 }

  function Slot(size: nat, p: nat): (s: nat)
    requires RingSize(size)
    ensures s < size
  {
    if size == 128 then p % 128 else p % 1024
  }

  lemma SlotDistinct(size: nat, p: nat, q: nat)
    requires RingSize(size) && p < q < p + size
    ensures Slot(size, p) != Slot(size, q)
  {}

  function Cells(ring: seq<Block>, p: nat, n: nat): (w: seq<Block>)
    requires RingSize(|ring|)
    ensures |w| == n
  {
    seq(n, i requires 0 <= i < n => ring[Slot(|ring|, p + i)])
  }

  lemma CellsDrop(ring: seq<Block>, p: nat, n: nat, k: nat)
    requires RingSize(|ring|) && k <= n
    ensures Cells(ring, p, n)[k..] == Cells(ring, p + k, n - k)
  {
    var whole, part := Cells(ring, p, n)[k..], Cells(ring, p + k, n - k);
    forall i | 0 <= i < n - k
      ensures whole[i] == part[i]
    {
      assert p + (k + i) == (p + k) + i;
    }
  }

  lemma CellsTake(ring: seq<Block>, p: nat, n: nat, k: nat)
    requires RingSize(|ring|) && k <= n
    ensures Cells(ring, p, n)[..k] == Cells(ring, p, k)
  {}

  // Overwriting the cell of a later position leaves a window alone and extends it.
  lemma CellsPut(ring: seq<Block>, p: nat, n: nat, b: Block)
    requires RingSize(|ring|) && n < |ring|
    ensures Cells(ring[Slot(|ring|, p + n) := b], p, n) == Cells(ring, p, n)
    ensures Cells(ring[Slot(|ring|, p + n) := b], p, n + 1) == Cells(ring, p, n) + [b]
  {
    var before, after := Cells(ring, p, n), Cells(ring[Slot(|ring|, p + n) := b], p, n);
    forall i | 0 <= i < n
      ensures before[i] == after[i]
    {
      SlotDistinct(|ring|, p + i, p + n);
    }
    assert Cells(ring[Slot(|ring|, p + n) := b], p, n + 1)[n] == b;
  }

  // ----- age of a frame -----

  // The coarse clock and the frame's date are bytes and their difference a plain int.
  predicate TooOld(f: Frame, clock: byte, timeout: int)
    requires Whole(f)
  {
    clock - f[0][0] > timeout
  }

  // The purge: drop frames from the front until a recent one shows up.
  function DropOld(fs: seq<Frame>, clock: byte, timeout: int): (r: seq<Frame>)
    requires AllWhole(fs)
    ensures AllWhole(r)
  {
    if fs != [] && TooOld(fs[0], clock, timeout) then DropOld(fs[1..], clock, timeout) else fs
  }

  // Exactly a prefix goes: the frames up to the first one that is not too old.
  lemma {:induction false} DropsOld(fs: seq<Frame>, clock: byte, timeout: int) returns (m: nat)
    requires AllWhole(fs)
    ensures m <= |fs| && DropOld(fs, clock, timeout) == fs[m..]
    ensures forall i | 0 <= i < m :: Whole(fs[i]) && clock - fs[i][0][0] > timeout
    ensures m < |fs| ==> Whole(fs[m]) && clock - fs[m][0][0] <= timeout
  {
    m := 0;
    if fs != [] && TooOld(fs[0], clock, timeout) {
      var n := DropsOld(fs[1..], clock, timeout);
      m := n + 1;
    }
  }

  predicate Expired(f: Frame, clock: byte, timeout: int)
    requires Whole(f)
  {
    clock - f[0][0] >= timeout
  }

  // The transfer: every expired frame goes, wherever it stands.
  function NotExpired(fs: seq<Frame>, clock: byte, timeout: int): (r: seq<Frame>)
    requires AllWhole(fs)
  {
    if fs == [] then []
    else if Expired(fs[0], clock, timeout) then NotExpired(fs[1..], clock, timeout)
    else [fs[0]] + NotExpired(fs[1..], clock, timeout)
  }

  // What is passed on are the frames younger than the timeout.
  lemma {:induction false} PassedOn(fs: seq<Frame>, clock: byte, timeout: int, f: Frame)
    requires AllWhole(fs) && Whole(f)
    ensures f in NotExpired(fs, clock, timeout) <==> f in fs && clock - f[0][0] < timeout
  {
    if fs != [] {
      PassedOn(fs[1..], clock, timeout, f);
      assert fs == [fs[0]] + fs[1..];
    }
  }

  // And a purge at the same time leaves all of them.
  lemma {:induction false} PassedOnSurvives(fs: seq<Frame>, clock: byte, timeout: int)
    requires AllWhole(fs)
    ensures AllWhole(NotExpired(fs, clock, timeout))
    ensures DropOld(NotExpired(fs, clock, timeout), clock, timeout) == NotExpired(fs, clock, timeout)
  {
    if fs != [] {
      PassedOnSurvives(fs[1..], clock, timeout);
    }
  }

  lemma NothingExpires(clock: byte, timeout: int)
    ensures NotExpired([], clock, timeout) == []
  {}

  lemma {:induction false} NotExpiredAppend(fs: seq<Frame>, f: Frame, clock: byte, timeout: int)
    requires AllWhole(fs) && Whole(f)
    ensures AllWhole(fs + [f])
    ensures NotExpired(fs + [f], clock, timeout)
         == NotExpired(fs, clock, timeout) + (if clock - f[0][0] < timeout then [f] else [])
  {
    if fs == [] {
      assert fs + [f] == [f];
      assert [f][1..] == [];
    } else {
      assert (fs + [f])[1..] == fs[1..] + [f];
      NotExpiredAppend(fs[1..], f, clock, timeout);
    }
  }

  // ----- what a transmitter does next -----

  // When its burst has to end, how long a byte takes, and what goes before a frame and before the
  // first one, in microseconds.
  datatype Timing = Timing(stop: nat, byteTime: nat, preamble: nat, extra: nat)

  // A frame of that size ends before the burst does, by the signed difference of two 32-bit times.
  predicate InTime(size: nat, now: nat, t: Timing, first: bool) {
    var delta := now + size * t.byteTime + t.preamble - t.stop - 50 + (if first then t.extra else 0);
    delta % 0x1_0000_0000 >= 0x8000_0000
  }

  // Its own frame, a queued one, or back to reception.
  datatype Choice = Allocation | Null | FromQueue(frame: Frame) | EndOfBurst

  function Choose(recent: seq<Frame>, now: nat, t: Timing, master: bool, first: bool, connected: bool): Choice
    requires AllWhole(recent)
  {
    if master && first then Allocation
    else if recent == [] then (if !master && first && connected then Null else EndOfBurst)
    else
      assert Whole(recent[0]);
      if InTime(StoredSize(recent[0][0][1]) - 1, now, t, first) then FromQueue(recent[0]) else EndOfBurst
  }

  // TX_slot_frame_counter after a choice.
  function Counted(frames: nat, choice: Choice): nat {
    if choice == EndOfBurst then 0 else frames + 1
  }

  function Counter(choices: seq<Choice>): nat {
    if choices == [] then 0 else Counted(Counter(choices[..|choices| - 1]), choices[|choices| - 1])
  }

  // What a decision starts from: the frames queued, the clocks, and whether the client is connected.
  datatype Situation = Situation(pending: seq<Frame>, clock: byte, timeout: int, now: nat, timing: Timing,
                                 connected: bool)

  // Any run of decisions of one transmitter, with whatever the main loop queues in between.
  predicate Decided(master: bool, run: seq<Situation>, choices: seq<Choice>) {
    |run| == |choices| && forall k | 0 <= k < |run| :: DecidedAt(master, run[k], choices, k)
  }

  predicate DecidedAt(master: bool, s: Situation, choices: seq<Choice>, k: nat)
    requires k < |choices|
  {
    && AllWhole(s.pending)
    && choices[k] == Choose(DropOld(s.pending, s.clock, s.timeout), s.now, s.timing, master,
                            Counter(choices[..k]) == 0, s.connected)
  }

  // A burst begins with the very first decision and behind every end.
  lemma FirstOfBurst(choices: seq<Choice>, k: nat)
    requires k <= |choices|
    ensures Counter(choices[..k]) == 0 <==> k == 0 || choices[k - 1] == EndOfBurst
  {
    if k > 0 {
      assert choices[..k][..k - 1] == choices[..k - 1];
    }
  }

  // Whatever is queued and whenever: the master sends its allocation frame first in a burst and
  // never again; a connected client sends a null frame exactly when it has nothing else to begin
  // with; every other frame sent is the oldest one that is not too old and ends in time; and a
  // burst ends exactly when there is none. m is the number of frames too old.
  lemma BurstLaw(master: bool, run: seq<Situation>, choices: seq<Choice>, k: nat) returns (m: nat)
    requires Decided(master, run, choices) && k < |run|
    ensures var p := run[k].pending;
            && AllWhole(p) && m <= |p|
            && (forall i | 0 <= i < m :: Whole(p[i]) && run[k].clock - p[i][0][0] > run[k].timeout)
            && (m < |p| ==> Whole(p[m]) && run[k].clock - p[m][0][0] <= run[k].timeout)
    ensures var p, t, first := run[k].pending, run[k].timing, k == 0 || choices[k - 1] == EndOfBurst;
            var ends := m < |p| &&
              (run[k].now + (p[m][0][1] + 91) * t.byteTime + t.preamble - t.stop - 50 + (if first then t.extra else 0))
              % 0x1_0000_0000 >= 0x8000_0000;
            && (choices[k] == Allocation <==> master && first)
            && (choices[k] == Null <==> !master && first && run[k].connected && m == |p|)
            && (choices[k].FromQueue? <==> !(master && first) && ends)
            && (choices[k].FromQueue? ==> choices[k].frame == p[m])
            && (choices[k] == EndOfBurst <==>
                  !(master && first) && !ends && !(first && run[k].connected && m == |p|))
  {
    var s := run[k];
    assert DecidedAt(master, s, choices, k);
    FirstOfBurst(choices, k);
    m := DropsOld(s.pending, s.clock, s.timeout);
  }

  // ----- a ring of blocks and its three pointers -----

  class BlockRing {
    const cells: array<Block>
    var wr: nat
    var rd: nat
    var lastReady: nat
    // The frames a reader finds in [rd, lastReady), and those it has already passed.
    ghost var pending: seq<Frame>
    ghost var consumed: seq<Frame>
    // The blocks copied since the last publication.
    ghost var partial: seq<Block>

    ghost predicate Valid()
      reads this, cells
    {
      && RingSize(cells.Length)
      && rd <= lastReady <= wr <= rd + cells.Length
      && AllWhole(pending)
      && Cells(cells[..], rd, wr - rd) == Flatten(pending) + partial
      && |partial| == wr - lastReady
    }

    ghost predicate Idle()
      reads this, cells
    {
      Valid() && partial == []
    }

    // Everything ever published, in order.
    ghost function Log(): seq<Frame>
      reads this
    {
      consumed + pending
    }

    constructor (size: nat)
      requires RingSize(size)
      ensures Idle() && fresh(cells) && cells.Length == size
      ensures pending == [] && consumed == [] && wr == rd == 0
    {
      cells := new Block[size](i => seq(128, j => 0));
      wr, rd, lastReady := 0, 0, 0;
      pending, consumed, partial := [], [], [];
    }

    // radio_flush_TX_FIFO: three stores, with the interrupt in between. What it takes between the
    // second and the third leaves the read pointer beyond the two others.
    method Flush() returns (ghost taken: nat)
      requires Idle()
      modifies `wr, `rd, `lastReady, `pending, `consumed
      ensures wr == lastReady == 0
      ensures Valid() <==> taken == 0
      ensures old(lastReady) == 0 ==> taken == 0
      ensures taken == 0 ==> Idle() && rd == 0 && pending == [] && consumed == old(Log())
    {
      wr := 0;
      ghost var before := TakeBlindly();
      rd := 0;
      taken := TakeBlindly();
      lastReady := 0;
      pending, consumed := [], consumed + pending;
      assert Cells(cells[..], 0, 0) == [];
    }

    // The interrupt during a flush: it compares the read pointer with last_ready only.
    method TakeBlindly() returns (ghost taken: nat)
      requires RingSize(cells.Length)
      modifies `rd
      ensures taken > 0 ==> old(rd) < rd
      ensures taken == 0 ==> rd == old(rd)
      ensures old(rd) >= lastReady ==> taken == 0
    {
      taken := 0;
      var times: nat :| true;
      for n := 0 to times
        invariant taken > 0 ==> old(rd) < rd
        invariant taken == 0 ==> rd == old(rd)
        invariant old(rd) >= lastReady ==> taken == 0
      {
        if rd < lastReady {
          rd := rd + BlocksFor(StoredSize(cells[Slot(cells.Length, rd)][1]));
          taken := taken + 1;
        }
      }
    }

    // A copy into the cell at the write pointer, which stays where it is.
    method Scribble(row: Block)
      requires Valid() && wr < rd + cells.Length
      modifies cells
      ensures Valid()
      ensures cells[Slot(cells.Length, wr)] == row
    {
      CellsPut(cells[..], rd, wr - rd, row);
      ghost var before := cells[..];
      cells[Slot(cells.Length, wr)] := row;
      assert cells[..] == before[Slot(cells.Length, wr) := row];
    }

    // The write pointer steps over the block just copied.
    method Step()
      requires Valid() && wr < rd + cells.Length
      modifies `wr, `partial
      ensures Valid()
      ensures wr == old(wr) + 1 && partial == old(partial) + [cells[Slot(cells.Length, old(wr))]]
    {
      ghost var row := cells[Slot(cells.Length, wr)];
      CellsPut(cells[..], rd, wr - rd, row);
      assert cells[..][Slot(cells.Length, wr) := row] == cells[..];
      wr := wr + 1;
      partial := partial + [row];
    }

    // last_ready catches up with the write pointer.
    method Publish()
      requires Valid() && (partial == [] || Whole(partial))
      modifies `lastReady, `pending, `partial
      ensures Idle() && lastReady == wr
      ensures pending == old(pending) + (if old(partial) == [] then [] else [old(partial)])
    {
      if partial != [] {
        FlattenAppend(pending, partial);
        assert Flatten(pending + [partial]) + [] == Flatten(pending) + partial;
        pending, partial := pending + [partial], [];
      }
      lastReady := wr;
    }

    // What the reader sees at its pointer is the first pending frame.
    lemma FirstFrame()
      requires Valid() && rd < lastReady
      ensures pending != [] && rd + |pending[0]| <= lastReady
      ensures forall i | 0 <= i < |pending[0]| :: cells[Slot(cells.Length, rd + i)] == pending[0][i]
      ensures Cells(cells[..], rd + |pending[0]|, wr - rd - |pending[0]|) == Flatten(pending[1..]) + partial
    {
      assert pending == [] ==> |Flatten(pending)| == 0;
      var all := Cells(cells[..], rd, wr - rd);
      assert all == pending[0] + (Flatten(pending[1..]) + partial);
      CellsDrop(cells[..], rd, wr - rd, |pending[0]|);
      forall i | 0 <= i < |pending[0]|
        ensures cells[Slot(cells.Length, rd + i)] == pending[0][i]
      {
        assert all[i] == pending[0][i];
        assert all[i] == cells[..][Slot(cells.Length, rd + i)];
      }
    }

    // Moves the read pointer past the first frame, by the size its length byte announces.
    method Skip(size: nat)
      requires Valid() && rd < lastReady
      requires size == StoredSize(cells[Slot(cells.Length, rd)][1])
      modifies `rd, `pending, `consumed
      ensures Valid()
      ensures old(pending) != [] && pending == old(pending)[1..] && consumed == old(consumed) + [old(pending)[0]]
      ensures rd == old(rd) + |old(pending)[0]| <= lastReady
    {
      FirstFrame();
      assert Whole(pending[0]);
      if size <= 128 {
        rd := rd + 1;
      } else if size <= 256 {
        rd := rd + 2;
      } else {
        rd := rd + 3;
      }
      consumed := consumed + [pending[0]];
      pending := pending[1..];
    }

    // TX_intern_FIFO_read: the blocks of the first frame, and the size it announces.
    method Take() returns (data: Frame, size: nat)
      requires Valid() && rd < lastReady
      modifies `rd, `pending, `consumed
      ensures Valid()
      ensures old(pending) != [] && pending == old(pending)[1..] && consumed == old(consumed) + [old(pending)[0]]
      ensures rd == old(rd) + |old(pending)[0]| <= lastReady
      ensures data == old(pending)[0] && Whole(data) && size == StoredSize(data[0][1])
    {
      FirstFrame();
      assert Whole(pending[0]);
      size := StoredSize(cells[Slot(cells.Length, rd)][1]);
      if size <= 128 {
        data := [cells[Slot(cells.Length, rd)]];
      } else if size <= 256 {
        data := [cells[Slot(cells.Length, rd)], cells[Slot(cells.Length, rd + 1)]];
      } else {
        data := [cells[Slot(cells.Length, rd)], cells[Slot(cells.Length, rd + 1)], cells[Slot(cells.Length, rd + 2)]];
      }
      assert data == pending[0];
      Skip(size);
    }

    // Radio_purge_old_frames
    method Purge(clock: byte, timeout: int) returns (ghost dropped: nat)
      requires Valid()
      modifies `rd, `pending, `consumed
      ensures Valid() && old(rd) <= rd
      ensures AllWhole(old(pending)) && pending == DropOld(old(pending), clock, timeout)
      ensures dropped <= |old(pending)| && pending == old(pending)[dropped..]
      ensures forall i | 0 <= i < dropped :: Whole(old(pending)[i]) && clock - old(pending)[i][0][0] > timeout
      ensures pending != [] ==> Whole(pending[0]) && clock - pending[0][0][0] <= timeout
      ensures Log() == old(Log())
    {
      ghost var before := pending;
      dropped := DropsOld(before, clock, timeout);
      var forceLoopExit := false;
      while !forceLoopExit
        invariant Valid() && old(rd) <= rd && AllWhole(old(pending))
        invariant Log() == old(Log())
        invariant DropOld(old(pending), clock, timeout) == DropOld(pending, clock, timeout)
        invariant forceLoopExit ==> pending == DropOld(pending, clock, timeout)
        decreases !forceLoopExit, |pending|
      {
        if rd < lastReady {
          FirstFrame();
          assert Whole(pending[0]);
          var datation := cells[Slot(cells.Length, rd)][0];
          if clock - datation > timeout {
            Skip(StoredSize(cells[Slot(cells.Length, rd)][1]));
          } else {
            forceLoopExit := true;
          }
        } else {
          NothingPending();
          forceLoopExit := true;
        }
      }
    }

    lemma NothingPending()
      requires Valid() && rd == lastReady
      ensures pending == []
    {
      FlattenEmpty(pending);
    }

    // SI4463_decide_new_TX_or_not: purge; the master opens a burst with its allocation frame, a
    // connected client without data with a null frame; otherwise the next frame goes if it ends
    // in time. frames counts those of the burst.
    method DecideTx(clock: byte, timeout: int, now: nat, t: Timing, master: bool, frames: nat, connected: bool)
      returns (choice: Choice, next: nat)
      requires Valid()
      modifies `rd, `pending, `consumed
      ensures Valid() && old(rd) <= rd && Log() == old(Log())
      ensures AllWhole(old(pending))
      ensures var recent := DropOld(old(pending), clock, timeout);
              && choice == Choose(recent, now, t, master, frames == 0, connected)
              && pending == if choice.FromQueue? then recent[1..] else recent
      ensures next == Counted(frames, choice)
    {
      hide InTime, DropOld, TooOld, Cells, Flatten, Slot;
      ghost var dropped := Purge(clock, timeout);
      var available := false;
      if rd < lastReady {
        FirstFrame();
        assert Whole(pending[0]);
        available := true;
      } else {
        NothingPending();
      }
      var size := if available then StoredSize(cells[Slot(cells.Length, rd)][1]) - 1 else 120;
      var inTime := InTime(size, now, t, frames == 0);
      next := frames + 1;
      if master && frames == 0 {
        choice := Allocation;
      } else if !master && !available && frames == 0 && connected {
        choice := Null;
      } else if available && inTime {
        var sent: Frame, n: nat := Take();
        choice := FromQueue(sent);
      } else {
        choice := EndOfBurst;
        next := 0;
      }
    }

    // The transmit interrupt, at any point of the main loop and any number of times.
    method Interrupt()
      requires Valid()
      modifies `rd, `pending, `consumed
      ensures Valid() && old(rd) <= rd && Log() == old(Log())
    {
      var times: nat :| true;
      for n := 0 to times
        invariant Valid() && old(rd) <= rd && Log() == old(Log())
      {
        var clock: byte, timeout: int, now: nat, t: Timing := *, *, *, *;
        var master: bool, frames: nat, connected: bool := *, *, *;
        var choice, next := DecideTx(clock, timeout, now, t, master, frames, connected);
      }
    }
  }

  // ----- writing into the internal ring -----

  // The blocks that a write of a 384-byte buffer copies.
  function Rows(data: seq<byte>, n: nat): (f: Frame)
    requires |data| == 384 && n <= 3
    ensures |f| == n
  {
    if n == 0 then []
    else if n == 1 then [data[..128]]
    else if n == 2 then [data[..128], data[128..256]]
    else [data[..128], data[128..256], data[256..384]]
  }

  // The writer and the reader count blocks from different quantities that agree:
  // the size argument and the length byte.
  lemma RowsWhole(data: seq<byte>, size: nat)
    requires |data| == 384 && size == StoredSize(data[1])
    ensures Whole(Rows(data, BlocksFor(size)))
  {}

  // memcpy of one block, then the pointer; the interrupt may come in between and after.
  method CopyRow(q: BlockRing, row: Block)
    requires q.Valid() && q.wr < q.rd + q.cells.Length
    modifies q, q.cells
    ensures q.Valid()
    ensures q.wr == old(q.wr) + 1 && q.rd >= old(q.rd) && q.lastReady == old(q.lastReady)
    ensures q.partial == old(q.partial) + [row] && q.Log() == old(q.Log())
  {
    q.Scribble(row);
    q.Interrupt();
    q.Step();
    q.Interrupt();
  }

  // TX_intern_FIFO_write
  method InternWrite(q: BlockRing, data: seq<byte>, size: nat)
    requires q.Idle() && |data| == 384 && size == StoredSize(data[1])
    requires q.wr + BlocksFor(size) <= q.rd + q.cells.Length
    modifies q, q.cells
    ensures q.Idle()
    ensures q.wr == old(q.wr) + BlocksFor(size) && q.rd >= old(q.rd)
    ensures q.Log() == old(q.Log()) + [Rows(data, BlocksFor(size))]
  {
    hide StoredSize, Whole, Flatten, Cells;
    RowsWhole(data, size);
    if size <= 128 {
      CopyRow(q, data[..128]);
    } else if size <= 256 {
      CopyRow(q, data[..128]);
      CopyRow(q, data[128..256]);
    } else {
      CopyRow(q, data[..128]);
      CopyRow(q, data[128..256]);
      CopyRow(q, data[256..384]);
    }
    assert q.partial == Rows(data, BlocksFor(size));
    q.Publish();
  }

  // ----- writing into the external ring -----

  // ext_SRAM_write2 of a block's worth or less at the write pointer: the rest of the
  // memory block keeps its old content.
  method CopyPart(q: BlockRing, part: seq<byte>)
    requires q.Valid() && q.wr < q.rd + q.cells.Length && |part| <= 128
    modifies q, q.cells
    ensures q.Valid()
    ensures q.wr == old(q.wr) + 1 && q.rd == old(q.rd) && q.lastReady == old(q.lastReady)
    ensures |q.partial| == |old(q.partial)| + 1 && q.partial[..|old(q.partial)|] == old(q.partial)
    ensures q.partial[|old(q.partial)|][..|part|] == part
    ensures q.Log() == old(q.Log())
  {
    var before := q.cells[Slot(q.cells.Length, q.wr)];
    q.Scribble(part + before[|part|..]);
    q.Step();
  }

  // What a stored frame must show: its first bytes are the data written.
  predicate Carries(f: Frame, data: seq<byte>) {
    |data| <= |FrameBytes(f)| && FrameBytes(f)[..|data|] == data
  }

  lemma CarriesRows(f: Frame, data: seq<byte>)
    requires 1 < |data| <= 384 && |f| == BlocksFor(|data|)
    requires if |data| <= 128 then f[0][..|data|] == data
             else if |data| <= 256 then f[0] == data[..128] && f[1][..|data| - 128] == data[128..]
             else f[0] == data[..128] && f[1] == data[128..256] && f[2][..|data| - 256] == data[256..]
    ensures Carries(f, data) && f[0][1] == data[1]
  {
    FrameBytesOf(f);
    if |data| <= 128 {
      assert f[0][..|data|][1] == data[1];
    } else if |data| <= 256 {
      assert data == data[..128] + data[128..];
    } else {
      assert data == data[..128] + data[128..256] + data[256..];
    }
  }

  lemma FrameBytesOf(f: Frame)
    requires 1 <= |f| <= 3
    ensures |f| == 1 ==> FrameBytes(f) == f[0]
    ensures |f| == 2 ==> FrameBytes(f) == Raw(f[0]) + f[1]
    ensures |f| == 3 ==> FrameBytes(f) == Raw(f[0]) + f[1] + f[2]
  {
    assert FrameBytes([]) == [];
    var last := f[|f| - 1];
    assert FrameBytes([last]) == Raw(last) + FrameBytes([]);
    if |f| == 1 {
      assert f == [f[0]];
    } else if |f| == 2 {
      assert f[1..] == [f[1]];
    } else {
      assert f[1..][1..] == [f[2]];
      assert FrameBytes(f[1..]) == Raw(f[1]) + f[2];
    }
  }

  // TX_ext_FIFO_write
  method ExtWrite(q: BlockRing, data: seq<byte>)
    requires q.Idle() && 1 < |data| <= 384 && |data| == StoredSize(data[1])
    requires q.wr + BlocksFor(|data|) <= q.rd + q.cells.Length
    modifies q, q.cells
    ensures q.Idle()
    ensures q.wr == old(q.wr) + BlocksFor(|data|) && q.rd == old(q.rd)
    ensures |q.Log()| == |old(q.Log())| + 1 && q.Log()[..|old(q.Log())|] == old(q.Log())
    ensures Carries(q.Log()[|old(q.Log())|], data)
  {
    var size := |data|;
    if size <= 128 {
      CopyPart(q, data);
    } else if size <= 256 {
      CopyPart(q, data[..128]);
      CopyPart(q, data[128..]);
    } else {
      CopyPart(q, data[..128]);
      CopyPart(q, data[128..256]);
      CopyPart(q, data[256..]);
    }
    CarriesRows(q.partial, data);
    q.Publish();
  }

  // ----- the spill transfer (source/L1L2_radio.cpp:658-709) -----

  // One block read into the cell at the internal write pointer, which follows only if
  // the block is to be kept.
  method StoreBlock(q: BlockRing, row: Block, keep: bool)
    requires q.Valid() && q.wr < q.rd + q.cells.Length
    modifies q, q.cells
    ensures q.Valid() && q.rd >= old(q.rd) && q.lastReady == old(q.lastReady) && q.Log() == old(q.Log())
    ensures q.wr == old(q.wr) + (if keep then 1 else 0)
    ensures q.partial == old(q.partial) + (if keep then [row] else [])
  {
    q.Scribble(row);
    if keep {
      q.Interrupt();
      q.Step();
    }
    q.Interrupt();
  }

  // The inner loop over the blocks of one frame.
  method MoveBlocks(cells: array<Block>, start: nat, intern: BlockRing, clock: byte, timeout: int, ghost frame: Frame)
    returns (at: nat, size: nat)
    requires RingSize(cells.Length) && cells != intern.cells && Whole(frame)
    requires forall j | 0 <= j < |frame| :: cells[Slot(cells.Length, start + j)] == frame[j]
    requires intern.Idle() && intern.wr + 3 <= intern.rd + intern.cells.Length
    modifies intern, intern.cells
    ensures intern.Valid() && intern.Log() == old(intern.Log())
    ensures intern.wr <= old(intern.wr) + 3 && intern.rd >= old(intern.rd)
    ensures intern.partial == if clock - frame[0][0] < timeout then frame else []
    ensures at == start + |frame| && size == StoredSize(frame[0][1])
  {
    var blocks: nat := 1;
    var datation: byte := 0;
    var i := 1;
    at, size := start, 0;
    while i <= blocks
      invariant 1 <= i <= blocks + 1 && at == start + i - 1
      invariant i == 1 ==> blocks == 1
      invariant i > 1 ==> blocks == |frame| && datation == frame[0][0] && size == StoredSize(frame[0][1])
      invariant forall j | 0 <= j < |frame| :: cells[Slot(cells.Length, start + j)] == frame[j]
      invariant intern.Valid() && intern.Log() == old(intern.Log()) && intern.rd >= old(intern.rd)
      invariant intern.wr <= old(intern.wr) + (i - 1)
      invariant intern.partial == if clock - frame[0][0] < timeout then frame[..i - 1] else []
      decreases 4 - i
    {
      var row := cells[Slot(cells.Length, at)];
      assert row == frame[i - 1] && frame[..i] == frame[..i - 1] + [row];
      if i == 1 {
        datation := row[0];
        size := StoredSize(row[1]);
        blocks := BlocksFor(size);
      }
      at := at + 1;
      StoreBlock(intern, row, clock - datation < timeout);
      i := i + 1;
    }
    assert frame[..|frame|] == frame;
  }

  // One frame: its blocks are read one by one into the internal ring, where the write
  // pointer only follows if the frame is not expired.
  method MoveFrame(ext: BlockRing, intern: BlockRing, clock: byte, timeout: int)
    requires ext != intern && ext.cells != intern.cells && ext.Idle() && intern.Idle()
    requires ext.rd < ext.wr && intern.wr + 3 <= intern.rd + intern.cells.Length
    modifies ext`rd, ext`pending, ext`consumed, intern, intern.cells
    ensures ext.Idle() && intern.Idle()
    ensures old(ext.pending) != [] && ext.pending == old(ext.pending)[1..] && Whole(old(ext.pending)[0])
    ensures ext.consumed == old(ext.consumed) + [old(ext.pending)[0]]
    ensures intern.Log() == old(intern.Log())
                            + (if clock - old(ext.pending)[0][0][0] < timeout then [old(ext.pending)[0]] else [])
    ensures intern.wr <= old(intern.wr) + 3 && intern.rd >= old(intern.rd)
  {
    hide Cells, Flatten, StoredSize, Slot;
    ext.FirstFrame();
    ghost var frame := ext.pending[0];
    assert Whole(frame);
    var at, size := MoveBlocks(ext.cells, ext.rd, intern, clock, timeout, frame);
    assert frame[0] == ext.cells[Slot(ext.cells.Length, ext.rd + 0)];
    ext.Skip(size);
    assert at == ext.rd;
    intern.Publish();
  }

  // ext_SRAM_periodic_call
  method PeriodicCall(ext: BlockRing, intern: BlockRing, clock: byte, timeout: int)
    requires ext != intern && ext.cells != intern.cells && ext.Idle() && intern.Idle()
    modifies ext`rd, ext`pending, ext`consumed, intern, intern.cells
    ensures ext.Idle() && intern.Idle() && ext.Log() == old(ext.Log())
    ensures |old(ext.consumed)| <= |ext.consumed| && AllWhole(ext.consumed[|old(ext.consumed)|..])
    // Exactly the frames taken from the external ring that have not expired, in order.
    ensures intern.Log() == old(intern.Log()) + NotExpired(ext.consumed[|old(ext.consumed)|..], clock, timeout)
    // These are the ones younger than the timeout, and none that the next purge would drop.
    ensures forall f: Frame | Whole(f) ::
              f in intern.Log()[|old(intern.Log())|..]
              <==> f in ext.consumed[|old(ext.consumed)|..] && clock - f[0][0] < timeout
    ensures var passed := intern.Log()[|old(intern.Log())|..];
            AllWhole(passed) && DropOld(passed, clock, timeout) == passed
    // It stops because one ring is empty enough or the other full enough, never above 12.
    ensures ext.pending == [] || intern.wr - intern.rd > 9
    ensures intern.wr - intern.rd <= 12 || intern.wr - intern.rd <= old(intern.wr - intern.rd)
  {
    hide Expired, Cells, Flatten, NotExpired;
    ghost var base := |ext.consumed|;
    ghost var moved: seq<Frame> := [];
    assert NotExpired(moved, clock, timeout) == [] by { NothingExpires(clock, timeout); }
    while ext.wr - ext.rd > 0 && intern.wr - intern.rd <= 9
      invariant ext.Idle() && intern.Idle() && ext.Log() == old(ext.Log())
      invariant ext.consumed == old(ext.consumed) + moved && AllWhole(moved)
      invariant intern.Log() == old(intern.Log()) + NotExpired(moved, clock, timeout)
      invariant intern.wr - intern.rd <= 12 || intern.wr - intern.rd <= old(intern.wr - intern.rd)
      decreases |ext.pending|
    {
      ext.FirstFrame();
      ghost var frame := ext.pending[0];
      MoveFrame(ext, intern, clock, timeout);
      NotExpiredAppend(moved, frame, clock, timeout);
      moved := moved + [frame];
    }
    assert ext.consumed[base..] == moved;
    assert intern.Log()[|old(intern.Log())|..] == NotExpired(moved, clock, timeout);
    forall f: Frame | Whole(f)
      ensures f in NotExpired(moved, clock, timeout) <==> f in moved && clock - f[0][0] < timeout
    {
      PassedOn(moved, clock, timeout, f);
    }
    PassedOnSurvives(moved, clock, timeout);
    if ext.wr == ext.rd {
      ext.NothingPending();
    }
  }
}
