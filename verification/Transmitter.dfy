// The main-loop side of transmission: filling checks, frame building, cutting packets
// (source/L1L2_radio.cpp:396-469, 476-482, 602-644).
module Transmitter {
  import opened Bytes
  import Fec
  import opened Reassembly
  import opened Link
  import QueueRuns
  import opened TxQueue

  class Sender {
    const intern: BlockRing
    const ext: BlockRing
    const isSramExt: bool
    const rframe: array<byte>
    var packetCounter: byte

    ghost predicate Valid()
      reads this, intern, intern.cells, ext, ext.cells
    {
      && intern != ext && intern.cells != ext.cells && rframe.Length == 384
      && intern.Idle() && ext.Idle()
      && intern.cells.Length == 128 && ext.cells.Length == 1024
    }

    function Target(): BlockRing {
      if isSramExt then ext else intern
    }

    constructor (isSramExt: bool)
      ensures Valid() && fresh(intern) && fresh(ext) && fresh(rframe) && fresh(intern.cells) && fresh(ext.cells)
      ensures this.isSramExt == isSramExt && Target().Log() == []
    {
      this.isSramExt := isSramExt;
      intern := new BlockRing(128);
      ext := new BlockRing(1024);
      rframe := new byte[384](i => 0);
      packetCounter := 0;
    }

    // TX_FIFO_full_global: priority 1 for data, 0 for signalling.
    method FullGlobal(priority: nat) returns (full: bool)
      requires Valid()
      ensures full <==> Target().wr - Target().rd >
                        (if isSramExt then (if priority == 1 then 950 else 1000)
                         else (if priority == 1 then 110 else 120))
    {
      if isSramExt {
        full := ext.wr - ext.rd > (if priority == 1 then 950 else 1000);
      } else {
        full := intern.wr - intern.rd > (if priority == 1 then 110 else 120);
      }
    }

    // TX_FIFO_write_global of the frame buffer.
    method WriteGlobal(size: nat)
      requires Valid() && size <= 384 && size == StoredSize(rframe[1])
      requires Target().wr + BlocksFor(size) <= Target().rd + Target().cells.Length
      modifies intern, intern.cells, ext, ext.cells
      ensures Valid() && packetCounter == old(packetCounter)
      ensures Target().wr == old(Target().wr) + BlocksFor(size) && Target().rd >= old(Target().rd)
      ensures |Target().Log()| == |old(Target().Log())| + 1
      ensures Target().Log()[..|old(Target().Log())|] == old(Target().Log())
      ensures Carries(Target().Log()[|old(Target().Log())|], old(rframe[..size]))
    {
      ghost var data := rframe[..];
      assert rframe[..size] == data[..size];
      if isSramExt {
        assert data[..size][1] == rframe[1];
        ExtWrite(ext, rframe[..size]);
      } else {
        InternWrite(intern, rframe[..], size);
        RowsCarry(data, size);
      }
    }

    // The common tail of segment_and_push and signaling_frame_push: lengths, encoding,
    // queueing. raw is the message buffer, padded.
    method QueueMessage(raw: seq<byte>, sizeWithoutFec: nat, timer: byte, tdma: byte) returns (ghost sent: Sent)
      requires Valid() && 66 <= sizeWithoutFec <= 255 && 3 * Fec.BlockSize(sizeWithoutFec) <= |raw|
      requires Target().wr + 3 <= Target().rd + Target().cells.Length
      modifies rframe, intern, intern.cells, ext, ext.cells
      ensures Valid() && packetCounter == old(packetCounter)
      ensures sent == Sent(timer, tdma, raw[..3 * Fec.BlockSize(sizeWithoutFec)]) && Sendable(sent)
      ensures Target().wr <= old(Target().wr) + 3 && Target().rd >= old(Target().rd)
      ensures |Target().Log()| == |old(Target().Log())| + 1
      ensures Target().Log()[..|old(Target().Log())|] == old(Target().Log())
      ensures Carries(Target().Log()[|old(Target().Log())|], Wire(sent))
    {
      hide Wire, Carries, Cells, Fec.Encode, Fec.BlockSize, Fec.SizeWithFec, Sendable, Flatten;
      sent := Sent(timer, tdma, raw[..3 * Fec.BlockSize(sizeWithoutFec)]);
      var size := BuildFrame(raw, sizeWithoutFec, timer, tdma);
      assert rframe[..size + 3] == Wire(sent);
      WriteGlobal(size + 3);
    }

    // Time, length and TDMA byte, then the code words.
    method BuildFrame(raw: seq<byte>, sizeWithoutFec: nat, timer: byte, tdma: byte) returns (sizeWithFec: nat)
      requires rframe.Length == 384
      requires 66 <= sizeWithoutFec <= 255 && 3 * Fec.BlockSize(sizeWithoutFec) <= |raw|
      modifies rframe
      ensures sizeWithFec == Fec.SizeWithFec(sizeWithoutFec) <= 344
      ensures Sendable(Sent(timer, tdma, raw[..3 * Fec.BlockSize(sizeWithoutFec)]))
      ensures rframe[..sizeWithFec + 3] == Wire(Sent(timer, tdma, raw[..3 * Fec.BlockSize(sizeWithoutFec)]))
      ensures sizeWithFec + 3 == StoredSize(rframe[1])
    {
      FrameSizes(sizeWithoutFec);
      rframe[0] := timer;
      var frameLength: int := Fec.SizeWithFec(sizeWithoutFec) + 1 - 90;
      if frameLength < 0 {
        frameLength := 0;
      }
      rframe[1] := frameLength;
      rframe[2] := tdma;
      sizeWithFec := Fec.FecEncode2(raw, rframe, 3, sizeWithoutFec);
      WireBytes(rframe[..], raw, sizeWithoutFec, timer, tdma);
      assert rframe[..][..sizeWithFec + 3] == rframe[..sizeWithFec + 3];
    }

    // segment_and_push
    method SegmentAndPush(data: seq<byte>, total: nat, addr: byte, protocol: byte)
      returns (accepted: bool, ghost sents: seq<Sent>)
      requires Valid() && CutSize(Max(63, total)) <= |data|
      modifies `packetCounter, rframe, intern, intern.cells, ext, ext.cells
      ensures Valid()
      ensures accepted <==> total < 1510 && old(Target().wr - Target().rd) <= (if isSramExt then 950 else 110)
      ensures !accepted ==> Target().Log() == old(Target().Log()) && packetCounter == old(packetCounter)
      ensures accepted ==> packetCounter == (old(packetCounter) + 1) % 256
      ensures accepted ==> Segmented(sents, Segments(data, total), addr, protocol, old(packetCounter))
      ensures accepted ==> Queued(old(Target().Log()), Target().Log(), sents)
    {
      sents := [];
      accepted := false;
      if total < 1510 {
        var full := FullGlobal(1);
        if !full {
          accepted := true;
          sents := PushAll(data, total, addr, protocol);
          packetCounter := (packetCounter + 1) % 256;
        }
      }
    }

    // The segmentation loop.
    method PushAll(data: seq<byte>, total: nat, addr: byte, protocol: byte) returns (ghost sents: seq<Sent>)
      requires Valid() && CutSize(Max(63, total)) <= |data| && total < 1510
      requires Target().wr - Target().rd <= (if isSramExt then 950 else 110)
      modifies rframe, intern, intern.cells, ext, ext.cells
      ensures Valid() && packetCounter == old(packetCounter)
      ensures Segmented(sents, Segments(data, total), addr, protocol, packetCounter)
      ensures Queued(old(Target().Log()), Target().Log(), sents)
    {
      hide Wire, IsMessage, Sendable, Carries, Cells, Queued, Segmented, Cutting, Cut;
      ghost var segs := Segments(data, total);
      var remaining: nat := if total < 63 then 63 else total;
      var counter, sizeSent: nat := 0, 0;
      var raw := new byte[300](i => 0);
      sents := [];
      CutShape(data, 0, remaining, 0);
      ghost var before := Target().Log();
      NoneQueued(before);
      NothingCut(data, remaining, segs, addr, protocol, packetCounter);
      while remaining > 0
        invariant Valid() && packetCounter == old(packetCounter) && fresh(raw) && raw.Length == 300
        invariant Cutting(segs, data, sizeSent, remaining, counter) && counter <= |segs| <= 6
        invariant |sents| == counter && Segmented(sents, segs[..counter], addr, protocol, packetCounter)
        invariant Queued(before, Target().Log(), sents)
        invariant Target().wr + 3 * (|segs| - counter) <= Target().rd + Target().cells.Length
        decreases remaining
      {
        CuttingNext(segs, data, sizeSent, remaining, counter);
        var segmentSize, last := if remaining <= 252 then remaining else 252, remaining <= 252;
        var sizeToSend := if segmentSize < 63 then 63 else segmentSize;
        ghost var middle := Target().Log();
        ghost var sent := PushSegment(raw, data[sizeSent..sizeSent + sizeToSend], addr, protocol, counter, last);
        QueuedMore(before, middle, Target().Log(), sents, sent);
        SegmentedMore(sents, segs, sent, counter, addr, protocol, packetCounter);
        sents := sents + [sent];
        sizeSent := sizeSent + sizeToSend;
        remaining := remaining - segmentSize;
        counter := counter + 1;
      }
      AllCut(segs, data, sizeSent, counter);
    }

    // One turn of the loop: header, payload, encoding, queueing.
    method PushSegment(raw: array<byte>, payload: seq<byte>, addr: byte, protocol: byte, counter: nat, last: bool)
      returns (ghost sent: Sent)
      requires Valid() && raw.Length == 300 && raw != rframe && 63 <= |payload| <= 252 && counter < 8
      requires Target().wr + 3 <= Target().rd + Target().cells.Length
      modifies raw, rframe, intern, intern.cells, ext, ext.cells
      ensures Valid() && packetCounter == old(packetCounter)
      ensures Sendable(sent) && IsMessage(sent.msg, addr, protocol, packetCounter, Segment(counter, last, payload))
      ensures Target().wr <= old(Target().wr) + 3 && Target().rd >= old(Target().rd)
      ensures Queued(old(Target().Log()), Target().Log(), [sent])
    {
      hide Wire, Carries, Cells, Fec.Encode;
      var timer: byte := *;
      var size := |payload| + 3;
      var seg := Segment(counter, last, payload);
      FillMessage(raw, addr, protocol, seg);
      Fec.SizeRoundTrip(size);
      ghost var bytes := raw[..];
      assert bytes[..3 * Fec.BlockSize(size)][..size] == bytes[..size];
      ghost var before := Target().Log();
      sent := QueueMessage(raw[..], size, timer, 1);
      assert QueuedAt(before, Target().Log(), [sent], 0);
    }

    // The message header and the payload.
    method FillMessage(raw: array<byte>, addr: byte, protocol: byte, seg: Segment)
      requires raw.Length == 300 && |seg.payload| <= 252
      modifies raw
      ensures raw[..3 + |seg.payload|] == Header(addr, protocol, packetCounter, seg) + seg.payload
    {
      raw[0] := AddressByte(addr);
      raw[1] := protocol;
      raw[2] := SegmenterByte(packetCounter, seg);
      forall i | 0 <= i < |seg.payload| {
        raw[3 + i] := seg.payload[i];
      }
    }
  }

  // after extends before by one frame per sent message, each carrying it.
  predicate Queued(before: seq<Frame>, after: seq<Frame>, sents: seq<Sent>) {
    && |after| == |before| + |sents| && after[..|before|] == before
    && forall i | 0 <= i < |sents| :: QueuedAt(before, after, sents, i)
  }

  predicate QueuedAt(before: seq<Frame>, after: seq<Frame>, sents: seq<Sent>, i: nat)
    requires |after| == |before| + |sents| && i < |sents|
  {
    Sendable(sents[i]) && Carries(after[|before| + i], Wire(sents[i]))
  }

  lemma NoneQueued(log: seq<Frame>)
    ensures Queued(log, log, [])
  {}

  lemma QueuedMore(before: seq<Frame>, middle: seq<Frame>, after: seq<Frame>, sents: seq<Sent>, sent: Sent)
    requires Queued(before, middle, sents) && Queued(middle, after, [sent])
    ensures Queued(before, after, sents + [sent])
  {
    forall i | 0 <= i < |sents| + 1
      ensures QueuedAt(before, after, sents + [sent], i)
    {
      if i < |sents| {
        assert QueuedAt(before, middle, sents, i);
        assert after[|before| + i] == after[..|middle|][|before| + i];
      } else {
        assert QueuedAt(middle, after, [sent], 0);
      }
    }
    assert after[..|middle|][..|before|] == after[..|before|];
  }

  lemma SegmentedMore(sents: seq<Sent>, segs: seq<Segment>, sent: Sent, n: nat, addr: byte, protocol: byte,
                      packetCounter: byte)
    requires n < |segs| && Segmented(sents, segs[..n], addr, protocol, packetCounter)
    requires Sendable(sent) && IsMessage(sent.msg, addr, protocol, packetCounter, segs[n])
    ensures Segmented(sents + [sent], segs[..n + 1], addr, protocol, packetCounter)
  {
    var all, heads := sents + [sent], segs[..n + 1];
    forall i | 0 <= i < n + 1
      ensures SegmentedAt(all, heads, addr, protocol, packetCounter, i)
    {
      if i < n {
        assert SegmentedAt(sents, segs[..n], addr, protocol, packetCounter, i);
      }
    }
  }

  // What the loop still has to cut is the tail of the segments.
  predicate Cutting(segs: seq<Segment>, data: seq<byte>, sent: nat, remaining: nat, counter: nat) {
    if remaining == 0 then counter == |segs|
    else
      && counter < |segs| && sent + CutSize(remaining) <= |data|
      && segs[counter..] == Cut(data, sent, remaining, counter)
  }

  lemma CuttingNext(segs: seq<Segment>, data: seq<byte>, sent: nat, remaining: nat, counter: nat)
    requires 0 < remaining && Cutting(segs, data, sent, remaining, counter)
    ensures var segment := if remaining <= 252 then remaining else 252;
            var size := if segment < 63 then 63 else segment;
            && sent + size <= |data| && counter < |segs|
            && segs[counter] == Segment(counter, remaining <= 252, data[sent..sent + size])
            && Cutting(segs, data, sent + size, remaining - segment, counter + 1)
  {
    assert segs[counter] == segs[counter..][0];
    assert segs[counter + 1..] == segs[counter..][1..];
  }

  lemma NothingCut(data: seq<byte>, remaining: nat, segs: seq<Segment>, addr: byte, protocol: byte, packetCounter: byte)
    requires 0 < remaining && CutSize(remaining) <= |data| && segs == Cut(data, 0, remaining, 0)
    ensures Cutting(segs, data, 0, remaining, 0) && Segmented([], segs[..0], addr, protocol, packetCounter)
  {
    assert segs[0..] == segs;
  }

  lemma AllCut(segs: seq<Segment>, data: seq<byte>, sent: nat, counter: nat)
    requires Cutting(segs, data, sent, 0, counter)
    ensures counter == |segs| && segs[..counter] == segs
  {}

  lemma HeadAndTail(out: seq<byte>, size: nat)
    requires size + 3 <= |out|
    ensures out[..size + 3] == [out[0], out[1], out[2]] + out[3..3 + size]
  {}

  lemma WireBytes(out: seq<byte>, raw: seq<byte>, n: nat, timer: byte, tdma: byte)
    requires 66 <= n <= 255 && 3 * Fec.BlockSize(n) <= |raw| && Fec.SizeWithFec(n) + 3 <= |out|
    requires out[0] == timer && out[1] == Fec.SizeWithFec(n) + 1 - 90 && out[2] == tdma
    requires out[3..3 + Fec.SizeWithFec(n)] == Fec.EncodeFirst(raw, Fec.BlockSize(n))
    ensures Sendable(Sent(timer, tdma, raw[..3 * Fec.BlockSize(n)]))
    ensures out[..Fec.SizeWithFec(n) + 3] == Wire(Sent(timer, tdma, raw[..3 * Fec.BlockSize(n)]))
  {
    hide Fec.EncodeFirst, Fec.Encode;
    FrameSizes(n);
    Fec.EncodedFields(raw, Fec.BlockSize(n));
    HeadAndTail(out, Fec.SizeWithFec(n));
  }

  lemma FrameSizes(n: nat)
    requires 66 <= n <= 255
    ensures Fec.SizeWithFec(3 * Fec.BlockSize(n)) == Fec.SizeWithFec(n) <= 344
    ensures 0 <= Fec.SizeWithFec(n) + 1 - 90 < 256 && 66 <= 3 * Fec.BlockSize(n) <= 255
  {}

  lemma RowsCarry(data: seq<byte>, size: nat)
    requires |data| == 384 && 1 < size <= 384
    ensures Carries(Rows(data, BlocksFor(size)), data[..size])
  {
    var f := Rows(data, BlocksFor(size));
    var d := data[..size];
    if size <= 128 {
      assert data[..128][..size] == d;
    } else if size <= 256 {
      assert d[..128] == data[..128] && data[128..256][..size - 128] == d[128..];
    } else {
      assert d[..128] == data[..128] && d[128..256] == data[128..256] && data[256..384][..size - 256] == d[256..];
    }
    CarriesRows(f, d);
  }

  // From the sender's promise to the receiver's IP layer: the frames that SegmentAndPush has
  // queued, received in order with at most one damaged block each and with any other records in
  // between, come out as the packet.
  lemma AcceptedIsDelivered(role: Role, tables: seq<Assembly>, before: seq<Frame>, after: seq<Frame>, j: Journey)
    requires |tables| == 7 && j.total < 1510 && CutSize(Max(63, j.total)) <= |j.data| && Lid(role, j.addr % 128) < 7
    requires Segmented(j.sents, Segments(j.data, j.total), j.addr, 2, j.packetCounter)
    requires Queued(before, after, j.sents) && j.frames == after[|before|..]
    requires |j.hits| == |j.sents| && |j.recs| == |j.own| && Rank(j.own, |j.own|) == |j.sents|
    requires forall n | 0 <= n < |j.recs| :: Leg(role, j, n)
    ensures forall n | 0 <= n < |j.recs| :: IsRecord(j.recs[n])
    ensures var out := ProcessAll(role, tables, j.recs).1;
            forall n | 0 <= n < |j.recs| && j.own[n] :: HandsOver(j, n, out[n])
  {
    hide Process, ProcessAll, Wire, IsMessage, Sendable, Leg;
    forall i | 0 <= i < |j.sents| ensures Loaded(j, i) {
      assert QueuedAt(before, after, j.sents, i);
    }
    EndToEnd(role, tables, j);
  }

  // And through the interrupt: in any run of the queue that tears no flush, the frames of the packet
  // as the interrupt found them in the ring, however copies and reads interleave.
  lemma RunIsDelivered(c: QueueRuns.Config, states: seq<QueueRuns.State>, steps: seq<QueueRuns.Step>, i: nat,
                       from: nat, role: Role, tables: seq<Assembly>, j: Journey)
    requires QueueRuns.Known(c) && QueueRuns.IsRun(c, states, steps) && i < |states|
    requires QueueRuns.Untorn(states, steps, i)
    requires from + |j.sents| <= |states[i].got| && from + |j.sents| <= |states[i].published|
    requires Queued(states[i].published[..from], states[i].published[..from + |j.sents|], j.sents)
    requires j.frames == states[i].got[from..from + |j.sents|]
    requires |tables| == 7 && j.total < 1510 && CutSize(Max(63, j.total)) <= |j.data| && Lid(role, j.addr % 128) < 7
    requires Segmented(j.sents, Segments(j.data, j.total), j.addr, 2, j.packetCounter)
    requires |j.hits| == |j.sents| && |j.recs| == |j.own| && Rank(j.own, |j.own|) == |j.sents|
    requires forall n | 0 <= n < |j.recs| :: Leg(role, j, n)
    ensures forall n | 0 <= n < |j.recs| :: IsRecord(j.recs[n])
    ensures var out := ProcessAll(role, tables, j.recs).1;
            forall n | 0 <= n < |j.recs| && j.own[n] :: HandsOver(j, n, out[n])
  {
    hide Process, ProcessAll, Wire, IsMessage, Sendable, Leg, QueueRuns.IsRun, QueueRuns.Untorn, Queued, Segmented;
    QueueRuns.QueueSafe(c, states, steps, i);
    GotIsPublished(states[i].got, states[i].published, from, |j.sents|);
    AcceptedIsDelivered(role, tables, states[i].published[..from], states[i].published[..from + |j.sents|], j);
  }

  lemma GotIsPublished(got: seq<Frame>, published: seq<Frame>, from: nat, n: nat)
    requires got <= published && from + n <= |got|
    ensures got[from..from + n] == published[..from + n][|published[..from]|..]
  {
    assert got == published[..|got|];
  }
}
