// The main loop's handling of one received record (source/L1L2_radio.cpp:67-250).
module Receiver {
  import opened Bytes
  import Fec
  import opened Reassembly
  import opened Link
  import opened RxFifo
  import opened TdmaByte

  // The static reassembly tables, one row per client: 1600-byte buffers whose first 14
  // bytes are the Ethernet header, the bytes received, the last segment and packet numbers.
  datatype Tables = Tables(buffer: seq<seq<byte>>, size: seq<nat>, prev: seq<nat>, curr: seq<nat>) {
    predicate Valid() {
      && |buffer| == |size| == |prev| == |curr| == 7
      && forall i | 0 <= i < 7 :: RowFits(i)
    }

    predicate RowFits(i: nat)
      requires i < |buffer| == |size|
    {
      |buffer[i]| == 1600 && 14 + size[i] <= 1600
    }

    function Row(i: nat): Assembly
      requires Valid() && i < 7
    {
      assert RowFits(i);
      Assembly(buffer[i][14..14 + size[i]], prev[i], curr[i])
    }

    function View(): (v: seq<Assembly>)
      requires Valid()
      ensures |v| == 7
    {
      seq(7, i requires 0 <= i < 7 => Row(i))
    }
  }

  class Radio {
    const fifo: Fifo
    const role: Role
    const dataRx: array<byte>
    var tables: Tables

    ghost predicate Valid()
      reads this, fifo, fifo.data
    {
      && fifo.Valid() && dataRx.Length == 360 && dataRx != fifo.data
      && tables.Valid() && BoundedRows(tables.View()) && (role.Master? ==> |role.status| == 7)
    }

    constructor (role: Role)
      requires role.Master? ==> |role.status| == 7
      ensures Valid() && fresh(fifo) && fresh(fifo.data) && fresh(dataRx) && this.role == role
      ensures fifo.records == [] && forall i | 0 <= i < 7 :: tables.View()[i] == Assembly([], 0, 0)
    {
      this.role := role;
      fifo := new Fifo();
      dataRx := new byte[360](i => 0);
      var zeros: seq<nat> := seq(7, i => 0);
      tables := Tables(seq(7, i => seq(1600, j => 0)), zeros, zeros, zeros);
    }

    // memcpy of a payload into a row.
    method Store(lid: nat, at: nat, payload: seq<byte>)
      requires tables.Valid() && lid < 7 && |tables.buffer[lid]| == 1600 && at + |payload| <= 1600
      modifies `tables
      ensures tables == old(tables).(buffer := old(tables.buffer)[lid := Patch(old(tables.buffer[lid]), at, payload)])
      ensures tables.Valid()
    {
      var row := Patch(tables.buffer[lid], at, payload);
      ghost var before := tables;
      tables := tables.(buffer := tables.buffer[lid := row]);
      forall i | 0 <= i < 7 ensures tables.RowFits(i) { assert before.RowFits(i); }
    }

    // A first segment starts the row, its successor extends it, anything else is a
    // continuity error that empties it; a last segment hands the row over.
    method AddSegment(lid: nat, pkt: nat, seg: Segment) returns (delivered: Option<seq<byte>>)
      requires tables.Valid() && lid < 7 && Bounded(tables.Row(lid)) && |seg.payload| <= 252
      requires !Overfills(tables.Row(lid), pkt, seg)
      modifies `tables
      ensures tables.Valid()
      ensures tables.View() == old(tables.View())[lid := Absorb(old(tables.Row(lid)), pkt, seg)]
      ensures delivered == Deliver(Absorb(old(tables.Row(lid)), pkt, seg), seg)
    {
      ghost var before := tables;
      assert before.RowFits(lid);
      AbsorbFits(before.Row(lid), pkt, seg);
      if seg.counter == 0 {
        Store(lid, 14, seg.payload);
        tables := tables.(size := tables.size[lid := |seg.payload|], curr := tables.curr[lid := pkt]);
      } else if seg.counter == tables.prev[lid] + 1 && pkt == tables.curr[lid] {
        Store(lid, 14 + tables.size[lid], seg.payload);
        tables := tables.(size := tables.size[lid := tables.size[lid] + |seg.payload|]);
      } else {
        tables := tables.(size := tables.size[lid := 0]);
      }
      tables := tables.(prev := tables.prev[lid := seg.counter]);
      RowsAfter(before, tables, lid, pkt, seg);
      delivered := None;
      if seg.last && tables.size[lid] > 0 {
        delivered := Some(tables.buffer[lid][14..14 + tables.size[lid]]);
      }
    }

    // Where the reader finds the fields of the oldest record.
    lemma OldestFields()
      requires fifo.Valid() && fifo.rd < fifo.last
      ensures fifo.records != [] && IsRecord(fifo.records[0])
      ensures var rec := fifo.records[0];
              && fifo.data[(fifo.rd + 4) % RX_RING] == rec[4] && fifo.data[(fifo.rd + 5) % RX_RING] == rec[5]
              && Window(fifo.data[..], fifo.rd + 6, |rec| - 6) == rec[6..]
    {
      fifo.FirstRecord();
      RecordFields(fifo.data[..], fifo.rd, fifo.records[0]);
    }

    // The code words of a record go through the decoder; newRd is past the whole record. The
    // interrupt may come in between, and leaves the bytes of the record where they are.
    method ReadRecord() returns (tdma: byte, size: nat, newRd: nat)
      requires Valid() && fifo.rd < fifo.last
      modifies dataRx, fifo.data, fifo`wr, fifo`last, fifo`remaining, fifo`listening, fifo`records, fifo`partial
      ensures Valid() && fifo.rd == old(fifo.rd) < fifo.last && old(fifo.records) <= fifo.records
      ensures old(fifo.records) != [] && IsRecord(fifo.records[0]) && newRd == fifo.rd + |fifo.records[0]|
      ensures tdma == fifo.records[0][5] && size <= 360 && dataRx[..size] == Fec.Decode(fifo.records[0][6..])
    {
      hide Fec.Decode, Fec.Failures, XorSum, Window;
      OldestFields();
      var at := fifo.rd + 4;
      var length := Min(fifo.data[at % RX_RING] as nat + 90, 345);
      at := at + 1;
      fifo.Interrupt();
      OldestFields();
      tdma := fifo.data[at % RX_RING];
      at := at + 1;
      fifo.Interrupt();
      OldestFields();
      size, newRd := DecodeAt(at, length - 1);
      ghost var decoded := dataRx[..];
      fifo.Interrupt();
      assert dataRx[..] == decoded;
    }

    // The decoder reads the ring and leaves it alone.
    method DecodeAt(at: nat, n: nat) returns (size: nat, newRd: nat)
      requires Valid() && 4 <= n <= 344
      modifies dataRx
      ensures Valid() && newRd == at + n
      ensures size <= 360 && dataRx[..size] == Fec.Decode(Window(fifo.data[..], at, n))
    {
      hide Fec.Decode, Fec.Failures, XorSum, Window;
      ghost var ring := fifo.data[..];
      var errors: nat;
      size, errors, newRd := Fec.FecDecode(fifo.data, at, dataRx, n);
      assert fifo.data[..] == ring;
    }

    // One record out of the FIFO: header, error correction, client filter, reassembly.
    method Dequeue() returns (delivered: Option<seq<byte>>)
      requires Valid()
      requires fifo.records != [] && IsRecord(fifo.records[0])
               ==> !OverfillsRow(role, tables.View(), fifo.records[0])
      modifies fifo, fifo.data, dataRx, `tables
      ensures Valid()
      ensures old(fifo.rd == fifo.last)
              ==> delivered == None && tables == old(tables) && fifo.records == old(fifo.records)
      ensures old(fifo.rd < fifo.last) ==>
                && old(fifo.records) != [] && IsRecord(old(fifo.records[0]))
                && old(fifo.records)[1..] <= fifo.records
                && fifo.rd == old(fifo.rd) + |old(fifo.records[0])|
                && (tables.View(), delivered) == Process(role, old(tables.View()), old(fifo.records[0]))
    {
      hide OverfillsRow, Fec.Decode, Window;
      delivered := None;
      if fifo.last > fifo.rd {
        ghost var before := fifo.records;
        var tdma, size, newRd := ReadRecord();
        ghost var rec := fifo.records[0];
        assert before[1..] <= fifo.records[1..];
        fifo.Consume(newRd);
        ProcessBounded(role, tables.View(), rec);
        if size > 0 {
          delivered := Dispatch(dataRx[..size], tdma, rec);
        }
      }
    }

    // The client filter and the IPv4 branch of the protocol dispatch.
    method Dispatch(d: seq<byte>, tdma: byte, ghost rec: seq<byte>) returns (delivered: Option<seq<byte>>)
      requires tables.Valid() && BoundedRows(tables.View()) && (role.Master? ==> |role.status| == 7)
      requires IsRecord(rec) && !OverfillsRow(role, tables.View(), rec)
      requires d == Fec.Decode(rec[6..]) && |d| >= 3 && tdma == rec[5]
      modifies `tables
      ensures tables.Valid()
      ensures (tables.View(), delivered) == Process(role, old(tables.View()), rec)
    {
      delivered := None;
      var addr: byte := d[0] % 128;
      var lid: nat := Lid(role, addr);
      if Accepts(role, FromMaster(tdma), addr) && d[1] == 2 && lid < 7 {
        var seg := Carried(d);
        assert Touches(role, rec, lid) && tables.View()[lid] == tables.Row(lid);
        delivered := AddSegment(lid, d[2] / 16, seg);
      }
    }
  }

  // The header fields of a record at their ring positions, and the code words behind them.
  lemma RecordFields(ring: seq<byte>, rd: nat, rec: seq<byte>)
    requires |ring| == RX_RING && IsRecord(rec) && Window(ring, rd, |rec|) == rec
    ensures ring[(rd + 4) % RX_RING] == rec[4] && ring[(rd + 5) % RX_RING] == rec[5]
    ensures Window(ring, rd + 6, |rec| - 6) == rec[6..]
  {
    var w := Window(ring, rd, |rec|);
    assert w[4] == rec[4] && w[5] == rec[5];
    WindowSlice(ring, rd, |rec|, 6, |rec| - 6);
  }

  // The bookkeeping of AddSegment seen through the abstraction.
  lemma RowsAfter(before: Tables, after: Tables, lid: nat, pkt: nat, seg: Segment)
    requires before.Valid() && lid < 7 && 14 + |Absorb(before.Row(lid), pkt, seg).buf| <= 1600
    requires |after.buffer| == |after.size| == |after.prev| == |after.curr| == 7
    requires after.prev == before.prev[lid := seg.counter]
    requires before.RowFits(lid)
    requires if seg.counter == 0 then
               && after.buffer == before.buffer[lid := Patch(before.buffer[lid], 14, seg.payload)]
               && after.size == before.size[lid := |seg.payload|] && after.curr == before.curr[lid := pkt]
             else if seg.counter == before.prev[lid] + 1 && pkt == before.curr[lid] then
               && after.buffer == before.buffer[lid := Patch(before.buffer[lid], 14 + before.size[lid], seg.payload)]
               && after.size == before.size[lid := before.size[lid] + |seg.payload|] && after.curr == before.curr
             else after.buffer == before.buffer && after.size == before.size[lid := 0] && after.curr == before.curr
    ensures after.Valid()
    ensures after.Row(lid) == Absorb(before.Row(lid), pkt, seg)
    ensures after.View() == before.View()[lid := Absorb(before.Row(lid), pkt, seg)]
  {
    forall i | 0 <= i < 7 ensures after.RowFits(i) { assert before.RowFits(i); }
    assert after.Row(lid) == Absorb(before.Row(lid), pkt, seg);
    forall i | 0 <= i < 7 && i != lid ensures after.Row(i) == before.Row(i) {}
  }
}
