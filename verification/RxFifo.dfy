// The receive FIFO: a byte ring that the receive interrupt fills with records and that
// a transmission rewinds to the last complete one (source/SI4463.cpp:642-661, 752-816,
// 884, 912), and the main loop that empties it (source/L1L2_radio.cpp:67-248).
module RxFifo {
  import opened Bytes
  import Fec
  import opened Reassembly
  import opened Link

  predicate AllRecords(recs: seq<seq<byte>>) {
    forall r | r in recs :: IsRecord(r)
  }

  // ----- copying into the ring -----

  // A byte-by-byte write, every position taken modulo the ring size.
  function WriteModular(ring: seq<byte>, at: nat, bytes: seq<byte>): (r: seq<byte>)
    requires |ring| == RX_RING
    ensures |r| == RX_RING
  {
    if bytes == [] then ring
    else WriteModular(ring, at, bytes[..|bytes| - 1])[(at + |bytes| - 1) % RX_RING := bytes[|bytes| - 1]]
  }

  lemma {:induction false} WriteModularWindow(ring: seq<byte>, rd: nat, n: nat, bytes: seq<byte>)
    requires |ring| == RX_RING && n + |bytes| <= RX_RING
    ensures Window(WriteModular(ring, rd + n, bytes), rd, n + |bytes|) == Window(ring, rd, n) + bytes
  {
    if bytes != [] {
      var m := |bytes| - 1;
      WriteModularWindow(ring, rd, n, bytes[..m]);
      WindowAppend(WriteModular(ring, rd + n, bytes[..m]), rd, n + m, bytes[m]);
      assert bytes == bytes[..m] + [bytes[m]];
    }
  }

  // Splitting the write changes nothing.
  lemma {:induction false} WriteModularSplit(ring: seq<byte>, at: nat, xs: seq<byte>, ys: seq<byte>)
    requires |ring| == RX_RING
    ensures WriteModular(ring, at, xs + ys) == WriteModular(WriteModular(ring, at, xs), at + |xs|, ys)
  {
    if ys == [] {
      assert xs + ys == xs;
    } else {
      var m := |ys| - 1;
      assert (xs + ys)[..|xs + ys| - 1] == xs + ys[..m];
      WriteModularSplit(ring, at, xs, ys[..m]);
    }
  }

  lemma {:induction false} WriteModularLap(ring: seq<byte>, at: nat, bytes: seq<byte>)
    requires |ring| == RX_RING
    ensures WriteModular(ring, at + RX_RING, bytes) == WriteModular(ring, at, bytes)
  {
    if bytes != [] {
      var m := |bytes| - 1;
      WriteModularLap(ring, at, bytes[..m]);
      OneLap(at + m);
    }
  }

  lemma OneLap(x: nat)
    ensures (x + RX_RING) % RX_RING == x % RX_RING
  {}

  // Nothing in the source looks at the read pointer: a write that passes it by a whole ring
  // leaves the newest bytes where the oldest unread ones were.
  lemma OverrunReplacesOldest(ring: seq<byte>, rd: nat, n: nat, bytes: seq<byte>)
    requires |ring| == RX_RING && n <= RX_RING && |bytes| <= RX_RING && n + |bytes| > RX_RING
    ensures Window(WriteModular(ring, rd + n, bytes), rd, n + |bytes| - RX_RING) == bytes[RX_RING - n..]
  {
    var xs, ys := bytes[..RX_RING - n], bytes[RX_RING - n..];
    assert bytes == xs + ys;
    WriteModularSplit(ring, rd + n, xs, ys);
    var filled := WriteModular(ring, rd + n, xs);
    WriteModularLap(filled, rd, ys);
    WriteModularWindow(filled, rd, 0, ys);
    assert Window(filled, rd, 0) == [];
  }

  // A block copy at an offset.
  function Patch(ring: seq<byte>, off: nat, bytes: seq<byte>): (r: seq<byte>)
    requires off + |bytes| <= |ring|
    ensures |r| == |ring|
  {
    ring[..off] + bytes + ring[off + |bytes|..]
  }

  // A write that does not reach the end of the ring is one block copy.
  lemma {:induction false} WriteModularFlat(ring: seq<byte>, at: nat, bytes: seq<byte>)
    requires |ring| == RX_RING && at % RX_RING + |bytes| <= RX_RING
    ensures WriteModular(ring, at, bytes) == Patch(ring, at % RX_RING, bytes)
  {
    hide Patch;
    var off := at % RX_RING;
    if bytes == [] {
      PatchNothing(ring, off);
    } else {
      var m := |bytes| - 1;
      WriteModularFlat(ring, at, bytes[..m]);
      SameLap(at, m);
      assert bytes == bytes[..m] + [bytes[m]];
      PatchAppend(ring, off, bytes[..m], bytes[m]);
    }
  }

  lemma SameLap(at: nat, m: nat)
    requires at % RX_RING + m < RX_RING
    ensures (at + m) % RX_RING == at % RX_RING + m
  {}

  lemma PatchNothing(ring: seq<byte>, off: nat)
    requires off <= |ring|
    ensures Patch(ring, off, []) == ring
  {}

  lemma PatchAppend(ring: seq<byte>, off: nat, bytes: seq<byte>, b: byte)
    requires off + |bytes| < |ring|
    ensures Patch(ring, off, bytes)[off + |bytes| := b] == Patch(ring, off, bytes + [b])
  {
    assert ring[off + |bytes|..][1..] == ring[off + |bytes| + 1..];
  }

  function Min(a: nat, b: nat): nat { if a < b then a else b }

  // ----- the FIFO -----

  class Fifo {
    const data: array<byte>
    var wr: nat
    var rd: nat
    var last: nat
    // RX_size_remaining, and whether the receive interrupt is enabled.
    var remaining: nat
    var listening: bool
    // The complete records between rd and last, and the bytes beyond last.
    ghost var records: seq<seq<byte>>
    ghost var partial: seq<byte>

    ghost predicate Valid()
      reads this, data
    {
      && data.Length == RX_RING
      && rd <= last <= wr <= rd + RX_RING
      && AllRecords(records)
      && Window(data[..], rd, wr - rd) == Flat(records) + partial
      && |partial| == wr - last
      && (!listening || remaining == 0 ==> partial == [])
      && (listening && remaining > 0 ==> |partial| > 5 && |partial| + remaining == 95 + partial[4] as nat)
    }

    constructor ()
      ensures Valid() && fresh(data) && listening && remaining == 0 && records == [] && partial == []
    {
      data := new byte[RX_RING](i => 0);
      wr, rd, last, remaining, listening := 0, 0, 0, 0, true;
      records, partial := [], [];
    }

    // memcpy of a chunk that stays inside the ring array.
    method CopyIn(off: nat, bytes: seq<byte>)
      requires off + |bytes| <= data.Length
      modifies data
      ensures data[..] == Patch(old(data[..]), off, bytes)
    {
      forall i | 0 <= i < |bytes| {
        data[off + i] := bytes[i];
      }
    }

    // SI4463_FIFO_RX_transfer: the copy in two steps when it would run over the end.
    method Transfer(bytes: seq<byte>)
      requires data.Length == RX_RING && |bytes| <= RX_RING
      modifies data, `wr
      ensures data[..] == WriteModular(old(data[..]), old(wr), bytes) && wr == old(wr) + |bytes|
    {
      hide WriteModular;
      var size := |bytes|;
      ghost var before := data[..];
      ghost var start := wr;
      if wr % RX_RING + size > RX_RING - 1 {
        var first := RX_RING - wr % RX_RING;
        var head, tail := bytes[..first], bytes[first..];
        assert bytes == head + tail;
        EndOfLap(wr);
        WriteModularSplit(before, start, head, tail);
        CopyAt(head);
        CopyAt(tail);
      } else {
        CopyAt(bytes);
      }
    }

    lemma EndOfLap(at: nat)
      ensures (at + (RX_RING - at % RX_RING)) % RX_RING == 0
    {}

    // One step of the transfer.
    method CopyAt(bytes: seq<byte>)
      requires data.Length == RX_RING && wr % RX_RING + |bytes| <= RX_RING
      modifies data, `wr
      ensures data[..] == WriteModular(old(data[..]), old(wr), bytes) && wr == old(wr) + |bytes|
    {
      WriteModularFlat(data[..], wr, bytes);
      CopyIn(wr % RX_RING, bytes);
      wr := wr + |bytes|;
    }

    // The five header bytes, one by one.
    method PutHeader(h: seq<byte>)
      requires data.Length == RX_RING && |h| == 5
      modifies data, `wr
      ensures data[..] == WriteModular(old(data[..]), old(wr), h) && wr == old(wr) + 5
    {
      ghost var before := data[..];
      ghost var start := wr;
      for i := 0 to 5
        invariant data[..] == WriteModular(before, start, h[..i]) && wr == start + i
      {
        data[wr % RX_RING] := h[i];
        wr := wr + 1;
        assert h[..i + 1][..i] == h[..i];
      }
      assert h[..5] == h;
    }

    // What a chunk does to the ghost view.
    ghost method Extend(bytes: seq<byte>, before: seq<byte>, oldWr: nat)
      requires data.Length == RX_RING && |before| == RX_RING
      requires rd <= last <= oldWr && oldWr + |bytes| == wr <= rd + RX_RING
      requires AllRecords(records) && Window(before, rd, oldWr - rd) == Flat(records) + partial
      requires |partial| == oldWr - last
      requires data[..] == WriteModular(before, oldWr, bytes)
      modifies `partial
      ensures partial == old(partial) + bytes
      ensures Window(data[..], rd, wr - rd) == Flat(records) + partial && |partial| == wr - last
    {
      WriteModularWindow(before, rd, oldWr - rd, bytes);
      partial := partial + bytes;
    }

    // The packet is full: as long as the reader has kept up, everything up to wr becomes one more
    // record.
    method Complete()
      requires data.Length == RX_RING && remaining == 0
      requires wr <= rd + RX_RING ==>
                 && rd <= last <= wr && AllRecords(records) && IsRecord(partial)
                 && Window(data[..], rd, wr - rd) == Flat(records) + partial && |partial| == wr - last
      modifies `last, `records, `partial
      ensures last == wr
      ensures wr <= rd + RX_RING ==> Valid() && records == old(records) + [old(partial)] && partial == []
    {
      last := wr;
      ghost var keptUp := wr <= rd + RX_RING;
      if keptUp {
        FlatAppend(records, [partial]);
        FlatOne(partial);
        records, partial := records + [partial], [];
      }
    }

    // The receive interrupt at the beginning of a packet: full is set when the chip has
    // it all, otherwise 89 bytes are taken. chip is what the chip's FIFO yields. Nothing looks at
    // the read pointer: the unread records survive exactly when the reader is at most a ring behind.
    method StartPacket(header: seq<byte>, full: bool, chip: seq<byte>)
      requires Valid() && listening && remaining == 0
      requires |header| == 5 && |chip| >= header[4] as nat + 90
      modifies data, `wr, `last, `remaining, `records, `partial
      ensures var size := header[4] as nat + 90;
              var n := if full || size <= 89 then size else 89;
              && data[..] == WriteModular(old(data[..]), old(wr), header + chip[..n]) && wr == old(wr) + 5 + n
              && remaining == Min(size, 345) - n
      ensures Valid() <==> wr <= rd + 8192
      ensures Valid() ==>
                if remaining == 0 then records == old(records) + [header + chip[..wr - old(wr) - 5]]
                else records == old(records) && partial == header + chip[..89]
    {
      hide Window, Flat, WriteModular;
      remaining := Min(header[4] as nat + 90, 345);
      var n := if remaining > 89 then 89 else remaining;
      if full {
        n := remaining;
      }
      ghost var before, wr0 := data[..], wr;
      PutHeader(header);
      Transfer(chip[..n]);
      WriteModularSplit(before, wr0, header, chip[..n]);
      assert |header + chip[..n]| == 5 + n;
      ghost var keptUp := wr <= rd + RX_RING;
      if keptUp {
        Extend(header + chip[..n], before, wr0);
        assert partial == header + chip[..n];
      }
      remaining := remaining - n;
      if remaining == 0 {
        Complete();
      }
    }

    // The receive interrupt in the middle or at the end of a packet.
    method ContinuePacket(full: bool, chip: seq<byte>)
      requires Valid() && listening && remaining > 0 && |chip| >= remaining
      modifies data, `wr, `last, `remaining, `records, `partial
      ensures var n := if full || old(remaining) <= 90 then old(remaining) else 90;
              && data[..] == WriteModular(old(data[..]), old(wr), chip[..n]) && wr == old(wr) + n
              && remaining == old(remaining) - n
      ensures Valid() <==> wr <= rd + 8192
      ensures Valid() ==>
                if remaining == 0 then records == old(records) + [old(partial) + chip[..wr - old(wr)]]
                else records == old(records) && partial == old(partial) + chip[..90]
    {
      hide Window, Flat, WriteModular;
      var n := if remaining > 90 then 90 else remaining;
      if full {
        n := remaining;
      }
      ghost var before, wr0 := data[..], wr;
      Transfer(chip[..n]);
      ghost var keptUp := wr <= rd + RX_RING;
      if keptUp {
        Extend(chip[..n], before, wr0);
      }
      remaining := remaining - n;
      if remaining == 0 {
        Complete();
      }
    }

    // SI4463_prepa_TX_2: an unfinished packet is abandoned without a trace.
    method Rewind()
      requires Valid()
      modifies `wr, `listening, `partial
      ensures Valid() && !listening && wr == last && partial == [] && records == old(records) && rd == old(rd)
    {
      WindowSlice(data[..], rd, wr - rd, 0, last - rd);
      assert |Flat(records)| == last - rd;
      wr := last;
      listening := false;
      partial := [];
    }

    // SI4463_TX_to_RX_transition
    method Resume()
      requires Valid() && !listening
      modifies `remaining, `listening
      ensures Valid() && listening && remaining == 0
    {
      remaining := 0;
      listening := true;
    }

    // The receive interrupt and the switching between reception and transmission, any number of
    // times while the reader keeps up: what is unread stays as it is, in the ring too.
    method Interrupt()
      requires Valid()
      modifies data, `wr, `last, `remaining, `listening, `records, `partial
      ensures Valid() && rd == old(rd) && old(records) <= records && old(last) <= last
      ensures Window(data[..], rd, old(last) - rd) == old(Window(data[..], rd, last - rd))
    {
      hide Window, Flat, WriteModular, IsRecord;
      UnreadIs();
      ghost var before := records;
      var times: nat :| true;
      for n := 0 to times
        invariant Valid() && rd == old(rd) && before <= records
      {
        OneInterrupt();
      }
      UnreadIs();
      FlatAppend(before, records[|before|..]);
      assert before + records[|before|..] == records;
      WindowSlice(data[..], rd, last - rd, 0, |Flat(before)|);
    }

    method OneInterrupt()
      requires Valid()
      modifies data, `wr, `last, `remaining, `listening, `records, `partial
      ensures Valid() && rd == old(rd) && old(records) <= records
    {
      hide Window, Flat, WriteModular, IsRecord;
      var full: bool, chip: seq<byte>, header: seq<byte>, toSend: bool := *, *, *, *;
      if toSend {
        Rewind();
      } else if !listening {
        Resume();
      } else if wr + 350 <= rd + RX_RING {
        if remaining == 0 && |header| == 5 && |chip| == header[4] as nat + 90 {
          StartPacket(header, full, chip);
        } else if 0 < remaining == |chip| <= 345 {
          ContinuePacket(full, chip);
        }
      }
    }

    // The unread bytes up to the last complete packet are the records.
    lemma UnreadIs()
      requires Valid()
      ensures Window(data[..], rd, last - rd) == Flat(records) && |Flat(records)| == last - rd
    {
      WindowSlice(data[..], rd, wr - rd, 0, last - rd);
      assert (Flat(records) + partial)[0..last - rd] == Flat(records);
    }

    // The first record, as the reader finds it at its pointer.
    lemma FirstRecord()
      requires Valid() && rd < last
      ensures records != [] && IsRecord(records[0]) && rd + |records[0]| <= last
      ensures Window(data[..], rd, |records[0]|) == records[0]
      ensures Window(data[..], rd + |records[0]|, wr - rd - |records[0]|) == Flat(records[1..]) + partial
    {
      hide Window;
      assert records == [] ==> |Flat(records)| == 0;
      var rec := records[0];
      assert IsRecord(rec);
      var all := Window(data[..], rd, wr - rd);
      assert all == rec + (Flat(records[1..]) + partial);
      WindowSlice(data[..], rd, wr - rd, 0, |rec|);
      WindowSlice(data[..], rd, wr - rd, |rec|, wr - rd - |rec|);
      assert all[0..|rec|] == rec && all[|rec|..|rec| + (wr - rd - |rec|)] == Flat(records[1..]) + partial;
    }

    // The reader has gone past the first record.
    method Consume(newRd: nat)
      requires Valid() && rd < last && records != [] && newRd == rd + |records[0]|
      modifies `rd, `records
      ensures Valid() && rd == newRd && records == old(records)[1..]
    {
      FirstRecord();
      rd := newRd;
      records := records[1..];
    }
  }
}
