// From an IP packet to radio frames and back: the formats that the transmitter and the
// receiver share, and end-to-end delivery (source/L1L2_radio.cpp:95-250, 258-469).
module Link {
  import opened Bytes
  import opened Fec
  import opened Reassembly
  import opened TdmaByte
  import TxQueue

  // ----- cutting a packet (source/L1L2_radio.cpp:415-461) -----

  function Max(a: nat, b: nat): nat { if a > b then a else b }

  // The segments of what remains of a packet; short ones are filled up to 63 bytes from
  // the padded source buffer.
  function Cut(data: seq<byte>, sent: nat, remaining: nat, counter: nat): (segs: seq<Segment>)
    requires 0 < remaining && sent + CutSize(remaining) <= |data|
    ensures |segs| > 0
    decreases remaining
  {
    if remaining <= 252 then [Segment(counter, true, data[sent..sent + Max(63, remaining)])]
    else [Segment(counter, false, data[sent..sent + 252])] + Cut(data, sent + 252, remaining - 252, counter + 1)
  }

  // Bytes that the segments carry in all.
  function CutSize(remaining: nat): (n: nat)
    requires remaining > 0
    ensures remaining <= n <= remaining + 62
  {
    if remaining <= 252 then Max(63, remaining) else 252 + CutSize(remaining - 252)
  }

  function Segments(data: seq<byte>, total: nat): seq<Segment>
    requires CutSize(Max(63, total)) <= |data|
  {
    Cut(data, 0, Max(63, total), 0)
  }

  // Numbered from zero, the last one marked, all but the last one full.
  predicate Shaped(segs: seq<Segment>, counter: nat) {
    forall i | 0 <= i < |segs| :: ShapedAt(segs, counter, i)
  }

  predicate ShapedAt(segs: seq<Segment>, counter: nat, i: nat)
    requires i < |segs|
  {
    && segs[i].counter == counter + i && (segs[i].last <==> i == |segs| - 1)
    && 63 <= |segs[i].payload| <= 252 && (i < |segs| - 1 ==> |segs[i].payload| == 252)
  }

  lemma {:induction false} CutShape(data: seq<byte>, sent: nat, remaining: nat, counter: nat)
    requires 0 < remaining && sent + CutSize(remaining) <= |data|
    ensures var segs := Cut(data, sent, remaining, counter);
            |segs| == (remaining + 251) / 252 && Shaped(segs, counter)
    decreases remaining
  {
    if remaining > 252 {
      CutShape(data, sent + 252, remaining - 252, counter + 1);
      var segs, rest := Cut(data, sent, remaining, counter), Cut(data, sent + 252, remaining - 252, counter + 1);
      forall i | 0 <= i < |segs| ensures ShapedAt(segs, counter, i) {
        assert i > 0 ==> ShapedAt(rest, counter + 1, i - 1);
      }
    }
  }

  lemma {:induction false} CutJoins(data: seq<byte>, sent: nat, remaining: nat, counter: nat)
    requires 0 < remaining && sent + CutSize(remaining) <= |data|
    ensures Concat(Cut(data, sent, remaining, counter), 0, |Cut(data, sent, remaining, counter)|)
         == data[sent..sent + CutSize(remaining)]
    decreases remaining
  {
    var segs := Cut(data, sent, remaining, counter);
    hide Concat;
    if remaining > 252 {
      var rest := Cut(data, sent + 252, remaining - 252, counter + 1);
      CutJoins(data, sent + 252, remaining - 252, counter + 1);
      ConcatCons(segs[0], rest, |rest|);
      SliceJoins(data, sent, sent + 252, sent + CutSize(remaining));
    } else {
      ConcatOne(segs[0]);
      assert segs == [segs[0]];
    }
  }

  lemma ConcatOne(s: Segment)
    ensures Concat([s], 0, 1) == s.payload
  {
    assert Concat([s], 0, 0) == [];
  }

  lemma SliceJoins(data: seq<byte>, a: nat, b: nat, c: nat)
    requires a <= b <= c <= |data|
    ensures data[a..c] == data[a..b] + data[b..c]
  {}

  lemma {:induction false} ConcatCons(s: Segment, rest: seq<Segment>, n: nat)
    requires n <= |rest|
    ensures Concat([s] + rest, 0, n + 1) == s.payload + Concat(rest, 0, n)
  {
    if n == 0 {
      assert Concat([s] + rest, 0, 0) == [];
    } else {
      ConcatCons(s, rest, n - 1);
    }
  }

  // ----- bytes of a frame -----

  // Client address with its parity bit, in an unsigned char.
  function AddressByte(a: byte): byte {
    (a + ParityBitElab(a % 128)) % 256
  }

  lemma AddressSurvives(a: byte)
    ensures AddressByte(a) % 128 == a % 128
  {
    AddTopBit(a, ParityBitElab(a % 128));
  }

  lemma AddTopBit(a: byte, top: byte)
    requires top == 0 || top == 128
    ensures ((a + top) % 256) % 128 == a % 128
  {}

  function SegmenterByte(packetCounter: byte, seg: Segment): byte {
    (packetCounter % 16) * 16 + (if seg.last then 8 else 0) + seg.counter % 8
  }

  lemma SegmenterRoundTrip(packetCounter: byte, seg: Segment)
    requires seg.counter < 8
    ensures var b := SegmenterByte(packetCounter, seg);
            b / 16 == packetCounter % 16 && ((b / 8) % 2 == 1 <==> seg.last) && b % 8 == seg.counter
  {
    var p, c := packetCounter % 16, seg.counter;
    assert (p * 16 + c) / 16 == p && (p * 16 + 8 + c) / 16 == p;
    assert (p * 16 + c) / 8 == 2 * p && (p * 16 + 8 + c) / 8 == 2 * p + 1;
  }

  function Header(addr: byte, protocol: byte, packetCounter: byte, seg: Segment): seq<byte> {
    [AddressByte(addr), protocol, SegmenterByte(packetCounter, seg)]
  }

  // Client 1 with its parity bit, IPv4, packet 3, last segment, number 4.
  lemma HeaderOnAir(payload: seq<byte>)
    ensures Header(1, 0x02, 3, Segment(4, true, payload)) == [0x81, 0x02, 0x3C]
    ensures Header(0x7F, 0x02, 18, Segment(0, false, payload)) == [0xFF, 0x02, 0x20]
  {
    assert BitSum(0) == 0 && BitSum(1) == 1 && BitSum(3) == 2 && BitSum(7) == 3;
    assert BitSum(15) == 4 && BitSum(31) == 5 && BitSum(63) == 6 && BitSum(127) == 7;
    assert AddressByte(1) == 0x81 && AddressByte(0x7F) == 0xFF;
  }

  // The message given to the encoder: header, payload and up to two stray bytes.
  predicate IsMessage(msg: seq<byte>, addr: byte, protocol: byte, packetCounter: byte, seg: Segment) {
    var n := 3 + |seg.payload|;
    && |msg| == 3 * BlockSize(n)
    && msg[..n] == Header(addr, protocol, packetCounter, seg) + seg.payload
  }

  // A frame as written into the queue: coarse time, length byte, TDMA byte, code words.
  datatype Sent = Sent(timer: byte, tdma: byte, msg: seq<byte>)

  predicate Sendable(s: Sent) {
    |s.msg| % 3 == 0 && 66 <= |s.msg| <= 255
  }

  function Wire(s: Sent): (w: seq<byte>)
    requires Sendable(s)
    ensures |w| > 1 && |w| == TxQueue.StoredSize(w[1])
  {
    LengthByteFits(|s.msg|);
    [s.timer, SizeWithFec(|s.msg|) + 1 - 90, s.tdma] + Encode(s.msg)
  }

  // Coarse time, length byte, TDMA byte and then the code words; 63 bytes of payload make 92 code
  // words and the length byte 3.
  lemma WireOnAir(timer: byte, tdma: byte, msg: seq<byte>)
    requires |msg| == 66
    ensures Wire(Sent(timer, tdma, msg)) == [timer, 3, tdma] + Encode(msg) && |Encode(msg)| == 92
  {
    hide Encode;
  }

  predicate Segmented(sents: seq<Sent>, segs: seq<Segment>, addr: byte, protocol: byte, packetCounter: byte) {
    && |sents| == |segs|
    && forall i | 0 <= i < |sents| :: SegmentedAt(sents, segs, addr, protocol, packetCounter, i)
  }

  predicate SegmentedAt(sents: seq<Sent>, segs: seq<Segment>, addr: byte, protocol: byte, packetCounter: byte, i: nat)
    requires i < |sents| == |segs|
  {
    Sendable(sents[i]) && IsMessage(sents[i].msg, addr, protocol, packetCounter, segs[i])
  }

  // ----- the receiver -----

  datatype Role = Master(status: seq<bool>) | Client(myId: byte)

  predicate Accepts(role: Role, downlink: bool, addr: byte) {
    match role
    case Master(status) => !downlink && ((addr < 7 && addr < |status| && status[addr]) || addr == 0x7E)
    case Client(id) => downlink && (addr == id || addr == 0x7F)
  }

  // Clients have a single receive buffer.
  function Lid(role: Role, addr: byte): byte {
    if role.Master? then addr else 0
  }

  // A record of the receive FIFO: three time bytes, RSSI, length byte, TDMA byte, code words.
  predicate IsRecord(rec: seq<byte>) {
    |rec| > 5 && |rec| == 95 + rec[4] as nat
  }

  // The effect of one record on the reassembly tables, and the packet handed to IP if any.
  function Process(role: Role, tables: seq<Assembly>, rec: seq<byte>): (r: (seq<Assembly>, Option<seq<byte>>))
    requires |tables| == 7 && IsRecord(rec)
    ensures |r.0| == 7
  {
    var d := Decode(rec[6..]);
    if |d| < 3 then (tables, None)
    else
      var addr: byte := d[0] % 128;
      var lid := Lid(role, addr);
      if Accepts(role, FromMaster(rec[5]), addr) && d[1] == 2 && lid < 7 then
        var seg := Segment(d[2] % 8, (d[2] / 8) % 2 == 1, d[3..]);
        var after := Absorb(tables[lid], d[2] / 16, seg);
        (tables[lid := after], Deliver(after, seg))
      else (tables, None)
  }

  function ProcessAll(role: Role, tables: seq<Assembly>, recs: seq<seq<byte>>)
    : (r: (seq<Assembly>, seq<Option<seq<byte>>>))
    requires |tables| == 7 && forall i | 0 <= i < |recs| :: IsRecord(recs[i])
    ensures |r.0| == 7 && |r.1| == |recs|
  {
    if recs == [] then (tables, [])
    else
      var n := |recs| - 1;
      var before := ProcessAll(role, tables, recs[..n]);
      var now := Process(role, before.0, recs[n]);
      (now.0, before.1 + [now.1])
  }

  // The record adds to row lid: it passes the filter as IPv4 for that row.
  predicate Touches(role: Role, rec: seq<byte>, lid: nat)
    requires IsRecord(rec)
  {
    var d := Decode(rec[6..]);
    && |d| >= 3 && d[1] == 2 && Lid(role, d[0] % 128) == lid
    && Accepts(role, FromMaster(rec[5]), d[0] % 128)
  }

  // Any other record, undecodable, of another protocol or for another row, leaves the row alone.
  lemma ForeignLeavesRow(role: Role, tables: seq<Assembly>, rec: seq<byte>, lid: nat)
    requires |tables| == 7 && lid < 7 && IsRecord(rec) && !Touches(role, rec, lid)
    ensures Process(role, tables, rec).0[lid] == tables[lid]
  {}

  // ----- what gets through -----

  // The segment that a record adds to a row.
  function Carried(d: seq<byte>): Segment
    requires |d| >= 3
  {
    Segment(d[2] % 8, (d[2] / 8) % 2 == 1, d[3..])
  }

  // A client takes IPv4 from the master only, for its own number or for everybody.
  lemma ClientFilter(id: byte, tables: seq<Assembly>, rec: seq<byte>)
    requires |tables| == 7 && IsRecord(rec)
    ensures var d := Decode(rec[6..]);
            Process(Client(id), tables, rec)
            == if |d| >= 3 && rec[5] / 0x40 % 2 == 1 && (d[0] % 128 == id || d[0] % 128 == 0x7F) && d[1] == 0x02
               then var after := Absorb(tables[0], d[2] / 16, Carried(d));
                    (tables[0 := after], Deliver(after, Carried(d)))
               else (tables, None)
  {
    hide Decode;
  }

  // The master takes it from connected clients only, each into a row of its own.
  lemma MasterFilter(status: seq<bool>, tables: seq<Assembly>, rec: seq<byte>)
    requires |tables| == |status| == 7 && IsRecord(rec)
    ensures var d := Decode(rec[6..]);
            Process(Master(status), tables, rec)
            == if |d| >= 3 && rec[5] / 0x40 % 2 == 0 && d[0] % 128 < 7 && status[d[0] % 128] && d[1] == 0x02
               then var after := Absorb(tables[d[0] % 128], d[2] / 16, Carried(d));
                    (tables[d[0] % 128 := after], Deliver(after, Carried(d)))
               else (tables, None)
  {
    hide Decode;
  }

  // The TDMA byte is one that a transmitter of that direction sends.
  ghost predicate SentBy(master: bool, tdma: byte) {
    exists value: nat, synchro: bool :: tdma == ElaborateByte(master, value, synchro)
  }

  lemma SentDirection(master: bool, tdma: byte)
    requires SentBy(master, tdma)
    ensures tdma / 0x40 % 2 == if master then 1 else 0
  {
    var value: nat, synchro: bool :| tdma == ElaborateByte(master, value, synchro);
    ByteRoundTrip(master, value, synchro);
  }

  // The station with this role is meant: by the master's byte and its own number or that of all
  // clients, or by a client's byte under the number of a connected client.
  ghost predicate Addressed(role: Role, tdma: byte, addr: byte) {
    match role
    case Client(id) => SentBy(true, tdma) && (addr % 128 == id || addr % 128 == 0x7F)
    case Master(status) => SentBy(false, tdma) && addr % 128 < 7 && addr % 128 < |status| && status[addr % 128]
  }

  lemma AddressedAccepts(role: Role, tdma: byte, addr: byte)
    requires Addressed(role, tdma, addr)
    ensures Accepts(role, FromMaster(tdma), addr % 128) && Lid(role, addr % 128) < 7
  {
    SentDirection(role.Client?, tdma);
  }

  // A record with two failing blocks leaves everything alone.
  lemma LostFrameIgnored(role: Role, tables: seq<Assembly>, rec: seq<byte>, j: nat, k: nat)
    requires |tables| == 7 && IsRecord(rec) && j < k < 4 && Fails(rec[6..], j) && Fails(rec[6..], k)
    ensures Process(role, tables, rec) == (tables, None)
  {
    TwoFailuresLoseTheFrame(rec[6..], j, k);
  }

  predicate BoundedRows(tables: seq<Assembly>) {
    forall i | 0 <= i < |tables| :: Bounded(tables[i])
  }

  predicate RowsFit(tables: seq<Assembly>) {
    forall i | 0 <= i < |tables| :: FitsRow(tables[i])
  }

  // The record passes the filter and its segment does not fit its row.
  predicate OverfillsRow(role: Role, tables: seq<Assembly>, rec: seq<byte>)
    requires |tables| == 7 && IsRecord(rec)
  {
    var d := Decode(rec[6..]);
    && |d| >= 3
    && var lid: nat := Lid(role, d[0] % 128);
       lid < 7 && Touches(role, rec, lid) && Overfills(tables[lid], d[2] / 16, Carried(d))
  }

  lemma ProcessFits(role: Role, tables: seq<Assembly>, rec: seq<byte>)
    requires |tables| == 7 && IsRecord(rec) && BoundedRows(tables) && RowsFit(tables)
    ensures BoundedRows(Process(role, tables, rec).0)
    ensures RowsFit(Process(role, tables, rec).0) <==> !OverfillsRow(role, tables, rec)
  {
    hide Decode, Overfills, Bounded, FitsRow;
    var d, after := Decode(rec[6..]), Process(role, tables, rec).0;
    if |d| >= 3 {
      var lid: nat := Lid(role, d[0] % 128);
      if Touches(role, rec, lid) && lid < 7 {
        AbsorbFits(tables[lid], d[2] / 16, Carried(d));
        assert RowsFit(after) <==> FitsRow(after[lid]);
      }
    }
  }

  predicate FitUpTo(role: Role, tables: seq<Assembly>, recs: seq<seq<byte>>, n: nat)
    requires |tables| == 7 && n <= |recs| && forall i | 0 <= i < |recs| :: IsRecord(recs[i])
  {
    forall m | 0 <= m <= n :: RowsFit(ProcessAll(role, tables, recs[..m]).0)
  }

  predicate NoneOverfills(role: Role, tables: seq<Assembly>, recs: seq<seq<byte>>, n: nat)
    requires |tables| == 7 && n <= |recs| && forall i | 0 <= i < |recs| :: IsRecord(recs[i])
  {
    forall m | 0 <= m < n :: !OverfillsRow(role, ProcessAll(role, tables, recs[..m]).0, recs[m])
  }

  // Over any run of records, whoever sends them and whatever is lost, the 1600-byte buffers hold
  // what is written to them exactly as long as no record overfills its row.
  lemma {:induction false} RunFits(role: Role, tables: seq<Assembly>, recs: seq<seq<byte>>, n: nat)
    requires |tables| == 7 && BoundedRows(tables) && RowsFit(tables)
    requires n <= |recs| && forall i | 0 <= i < |recs| :: IsRecord(recs[i])
    ensures FitUpTo(role, tables, recs, n) <==> NoneOverfills(role, tables, recs, n)
    ensures BoundedRows(ProcessAll(role, tables, recs[..n]).0)
  {
    hide Process, OverfillsRow, BoundedRows, RowsFit, ProcessAll;
    FirstTables(role, tables, recs);
    if n > 0 {
      RunFits(role, tables, recs, n - 1);
      NextTables(role, tables, recs, n);
      var before := ProcessAll(role, tables, recs[..n - 1]).0;
      assert FitUpTo(role, tables, recs, n) <==> FitUpTo(role, tables, recs, n - 1)
                                                 && RowsFit(ProcessAll(role, tables, recs[..n]).0);
      assert NoneOverfills(role, tables, recs, n) <==> NoneOverfills(role, tables, recs, n - 1)
                                                       && !OverfillsRow(role, before, recs[n - 1]);
      if FitUpTo(role, tables, recs, n - 1) {
        assert RowsFit(before);
        ProcessFits(role, before, recs[n - 1]);
      }
      ProcessBounded(role, before, recs[n - 1]);
    }
  }

  lemma FirstTables(role: Role, tables: seq<Assembly>, recs: seq<seq<byte>>)
    requires |tables| == 7
    ensures ProcessAll(role, tables, recs[..0]).0 == tables
  {}

  lemma NextTables(role: Role, tables: seq<Assembly>, recs: seq<seq<byte>>, n: nat)
    requires |tables| == 7 && 0 < n <= |recs| && forall i | 0 <= i < |recs| :: IsRecord(recs[i])
    ensures ProcessAll(role, tables, recs[..n]).0
         == Process(role, ProcessAll(role, tables, recs[..n - 1]).0, recs[n - 1]).0
  {
    assert recs[..n][..n - 1] == recs[..n - 1];
  }

  lemma ProcessBounded(role: Role, tables: seq<Assembly>, rec: seq<byte>)
    requires |tables| == 7 && IsRecord(rec) && BoundedRows(tables)
    ensures BoundedRows(Process(role, tables, rec).0)
  {
    hide Decode;
  }

  // The segment numbers of packets shorter than 1510 bytes.
  predicate ShortPacket(role: Role, rec: seq<byte>)
    requires IsRecord(rec)
  {
    forall lid: nat | lid < 7 && Touches(role, rec, lid) :: Decode(rec[6..])[2] % 8 <= 5
  }

  // So records of such packets never overfill a row.
  lemma ShortNeverOverfills(role: Role, tables: seq<Assembly>, rec: seq<byte>)
    requires |tables| == 7 && IsRecord(rec) && ShortPacket(role, rec)
    ensures !OverfillsRow(role, tables, rec)
  {
    hide Decode;
  }

  // Over any run of such records no buffer is ever exceeded.
  lemma RunBounded(role: Role, tables: seq<Assembly>, recs: seq<seq<byte>>, n: nat)
    requires |tables| == 7 && BoundedRows(tables) && RowsFit(tables)
    requires n <= |recs| && forall i | 0 <= i < |recs| :: IsRecord(recs[i]) && ShortPacket(role, recs[i])
    ensures FitUpTo(role, tables, recs, n)
  {
    hide OverfillsRow, ShortPacket, BoundedRows, RowsFit, ProcessAll;
    forall m | 0 <= m < n ensures !OverfillsRow(role, ProcessAll(role, tables, recs[..m]).0, recs[m]) {
      ShortNeverOverfills(role, ProcessAll(role, tables, recs[..m]).0, recs[m]);
    }
    RunFits(role, tables, recs, n);
  }

  // ----- the channel -----

  // The code words of a frame in the queue, as many as its length byte announces.
  function CodeWords(f: TxQueue.Frame): seq<byte> {
    var b := TxQueue.FrameBytes(f);
    if |b| > 3 && TxQueue.StoredSize(b[1]) <= |b| then b[3..TxQueue.StoredSize(b[1])] else []
  }

  // rec is what the receiver stored for the queued frame f: its length byte and its code words,
  // except for repairable damage inside one block. The TDMA byte was rewritten at transmission.
  predicate Received(rec: seq<byte>, f: TxQueue.Frame, k: nat) {
    && IsRecord(rec) && |TxQueue.FrameBytes(f)| > 1 && rec[4] == TxQueue.FrameBytes(f)[1]
    && Repairable(rec[6..], CodeWords(f), k)
  }

  lemma CarriedWords(f: TxQueue.Frame, s: Sent)
    requires Sendable(s) && TxQueue.Carries(f, Wire(s))
    ensures CodeWords(f) == Encode(s.msg)
  {
    var b, w := TxQueue.FrameBytes(f), Wire(s);
    assert b[1] == b[..|w|][1] == w[1];
    assert b[3..|w|] == b[..|w|][3..] == Encode(s.msg);
  }

  // What the queue carries is what the receiver decodes.
  lemma ReceivedDecodes(rec: seq<byte>, f: TxQueue.Frame, s: Sent, k: nat)
    requires Sendable(s) && TxQueue.Carries(f, Wire(s)) && Received(rec, f, k)
    ensures Decode(rec[6..]) == s.msg
  {
    CarriedWords(f, s);
    RepairableDecodes(rec[6..], s.msg, k);
  }

  // The header fields come back as they were put in.
  lemma HeaderRoundTrip(msg: seq<byte>, addr: byte, protocol: byte, packetCounter: byte, seg: Segment)
    requires IsMessage(msg, addr, protocol, packetCounter, seg) && seg.counter < 8
    ensures |msg| >= 3 && msg[0] % 128 == addr % 128 && msg[1] == protocol
    ensures msg[2] / 16 == packetCounter % 16 && ((msg[2] / 8) % 2 == 1 <==> seg.last) && msg[2] % 8 == seg.counter
    ensures |msg| - 3 <= |seg.payload| + 2 && msg[3..][..|seg.payload|] == seg.payload
    ensures |seg.payload| % 3 == 0 ==> msg[3..] == seg.payload
  {
    hide AddressByte, SegmenterByte;
    var n := 3 + |seg.payload|;
    var all := Header(addr, protocol, packetCounter, seg) + seg.payload;
    assert msg[..n][0] == msg[0] && msg[..n][1] == msg[1] && msg[..n][2] == msg[2];
    AddressSurvives(addr);
    SegmenterRoundTrip(packetCounter, seg);
    assert msg[3..n] == msg[..n][3..] == seg.payload;
    SizeRoundTrip(n);
  }

  // ----- a packet too long -----

  // The record of a frame, undamaged.
  function RecordOf(tdma: byte, msg: seq<byte>): (rec: seq<byte>)
    requires |msg| % 3 == 0 && 66 <= |msg| <= 255
    ensures IsRecord(rec)
  {
    LengthByteFits(|msg|);
    [0, 0, 0, 0, SizeWithFec(|msg|) + 1 - 90, tdma] + Encode(msg)
  }

  // The records of the first n full segments of one packet, none of them the last.
  function FullRecords(tdma: byte, addr: byte, packetCounter: byte, payload: seq<byte>, n: nat): (recs: seq<seq<byte>>)
    requires |payload| == 252
    ensures |recs| == n && forall i | 0 <= i < n :: IsRecord(recs[i])
  {
    if n == 0 then []
    else
      FullRecords(tdma, addr, packetCounter, payload, n - 1)
      + [RecordOf(tdma, Header(addr, 2, packetCounter, Segment(n - 1, false, payload)) + payload)]
  }

  lemma {:induction false} FullRecordsFill(role: Role, tables: seq<Assembly>, tdma: byte, addr: byte,
                                           packetCounter: byte, payload: seq<byte>, n: nat)
    requires |tables| == 7 && |payload| == 252 && 0 < n <= 7
    requires Accepts(role, FromMaster(tdma), addr % 128) && Lid(role, addr % 128) < 7
    ensures var row := ProcessAll(role, tables, FullRecords(tdma, addr, packetCounter, payload, n)).0[
                                  Lid(role, addr % 128)];
            |row.buf| == 252 * n && row.prev == n - 1 && row.cur == packetCounter % 16
  {
    hide Decode, Encode, Accepts, Header;
    var recs := FullRecords(tdma, addr, packetCounter, payload, n);
    var earlier := FullRecords(tdma, addr, packetCounter, payload, n - 1);
    var seg := Segment(n - 1, false, payload);
    var msg := Header(addr, 2, packetCounter, seg) + payload;
    assert recs[..n - 1] == earlier;
    if n > 1 {
      FullRecordsFill(role, tables, tdma, addr, packetCounter, payload, n - 1);
    }
    FullRecord(role, ProcessAll(role, tables, earlier).0, tdma, addr, packetCounter, seg);
  }

  lemma FullRecord(role: Role, tables: seq<Assembly>, tdma: byte, addr: byte, packetCounter: byte, seg: Segment)
    requires |tables| == 7 && |seg.payload| == 252 && seg.counter < 8
    requires Accepts(role, FromMaster(tdma), addr % 128) && Lid(role, addr % 128) < 7
    ensures var rec := RecordOf(tdma, Header(addr, 2, packetCounter, seg) + seg.payload);
            Process(role, tables, rec).0[Lid(role, addr % 128)]
            == Absorb(tables[Lid(role, addr % 128)], packetCounter % 16, seg)
  {
    hide Decode, Encode, Accepts;
    var msg := Header(addr, 2, packetCounter, seg) + seg.payload;
    var rec := RecordOf(tdma, msg);
    DecodeEncode(msg);
    assert rec[6..] == Encode(msg);
    assert msg[..255] == msg && IsMessage(msg, addr, 2, packetCounter, seg);
    HeaderRoundTrip(msg, addr, 2, packetCounter, seg);
    assert msg[3..] == seg.payload;
  }

  // Seven records that the receiver accepts: the last one overfills its row, whatever it held.
  lemma SevenRecordsOverflow(role: Role, tables: seq<Assembly>, tdma: byte, addr: byte, packetCounter: byte,
                             payload: seq<byte>)
    requires |tables| == 7 && |payload| == 252 && Addressed(role, tdma, addr)
    ensures var after := ProcessAll(role, tables, FullRecords(tdma, addr, packetCounter, payload, 7)).0;
            14 + |after[Lid(role, addr % 128)].buf| == 1778 > 1600
  {
    AddressedAccepts(role, tdma, addr);
    FullRecordsFill(role, tables, tdma, addr, packetCounter, payload, 7);
  }

  // ----- end to end -----

  // The segment as the receiver cuts it out of a decoded message.
  function Seen(msg: seq<byte>, seg: Segment): Segment
    requires |msg| >= 3
  {
    Segment(seg.counter, seg.last, msg[3..])
  }

  lemma ProcessSegment(role: Role, tables: seq<Assembly>, rec: seq<byte>, f: TxQueue.Frame, sent: Sent, k: nat,
                       addr: byte, packetCounter: byte, seg: Segment)
    requires |tables| == 7 && Sendable(sent) && TxQueue.Carries(f, Wire(sent)) && Received(rec, f, k)
    requires IsMessage(sent.msg, addr, 2, packetCounter, seg) && seg.counter < 8
    requires Addressed(role, rec[5], addr)
    ensures |sent.msg| >= 3
    ensures var lid, seen := Lid(role, addr % 128), Seen(sent.msg, seg);
            var after := Absorb(tables[lid], packetCounter % 16, seen);
            Process(role, tables, rec) == (tables[lid := after], Deliver(after, seen))
  {
    AddressedAccepts(role, rec[5], addr);
    ReceivedDecodes(rec, f, sent, k);
    HeaderRoundTrip(sent.msg, addr, 2, packetCounter, seg);
  }

  // The premises of delivery: a packet cut by the sender, its frames as queued, and all the
  // records of the receiver, those of the packet being marked in own. hits[i] is the damaged
  // block of frame i.
  datatype Journey = Journey(
    data: seq<byte>, total: nat, addr: byte, packetCounter: byte,
    sents: seq<Sent>, frames: seq<TxQueue.Frame>, hits: seq<nat>, recs: seq<seq<byte>>, own: seq<bool>)

  // How many of the first n records belong to the packet.
  function Rank(own: seq<bool>, n: nat): (r: nat)
    requires n <= |own|
    ensures r <= n
  {
    if n == 0 then 0 else Rank(own, n - 1) + if own[n - 1] then 1 else 0
  }

  ghost predicate Travels(role: Role, j: Journey) {
    && j.total < 1510 && CutSize(Max(63, j.total)) <= |j.data|
    && Segmented(j.sents, Segments(j.data, j.total), j.addr, 2, j.packetCounter)
    && |j.frames| == |j.hits| == |j.sents| && |j.recs| == |j.own|
    && Lid(role, j.addr % 128) < 7
    && Rank(j.own, |j.own|) == |j.sents|
    && (forall i | 0 <= i < |j.sents| :: Loaded(j, i))
    && forall n | 0 <= n < |j.recs| :: Leg(role, j, n)
  }

  // Frame i lies in the queue.
  predicate Loaded(j: Journey, i: nat)
    requires i < |j.frames| == |j.sents|
  {
    Sendable(j.sents[i]) && TxQueue.Carries(j.frames[i], Wire(j.sents[i]))
  }

  // The packet's own records are its frames in order; while it is under way the others may be
  // anything that does not touch its row.
  ghost predicate Leg(role: Role, j: Journey, n: nat)
    requires n < |j.recs| == |j.own| && |j.frames| == |j.hits| == |j.sents|
  {
    var i := Rank(j.own, n);
    && IsRecord(j.recs[n])
    && if j.own[n] then
         && i < |j.sents| && Received(j.recs[n], j.frames[i], j.hits[i])
         && Addressed(role, j.recs[n][5], j.addr)
       else
         0 < i < |j.sents| ==> !Touches(role, j.recs[n], Lid(role, j.addr % 128))
  }

  // The buffer after the first n segments: their bytes, and behind the very last one up
  // to two stray bytes of the encoder.
  predicate Gathered(segs: seq<Segment>, n: nat, st: Assembly, packetCounter: byte)
    requires 0 < n <= |segs|
  {
    var all := Concat(segs, 0, n);
    && st.prev == n - 1 && st.cur == packetCounter % 16
    && |all| <= |st.buf| <= |all| + 2 && st.buf[..|all|] == all
    && (n < |segs| ==> st.buf == all)
  }

  lemma AbsorbNext(segs: seq<Segment>, n: nat, before: Assembly, addr: byte, packetCounter: byte, msg: seq<byte>)
    requires n < |segs| <= 6 && Shaped(segs, 0) && IsMessage(msg, addr, 2, packetCounter, segs[n])
    requires n == 0 || Gathered(segs, n, before, packetCounter)
    ensures |msg| >= 3
    ensures var seen := Seen(msg, segs[n]);
            var after := Absorb(before, packetCounter % 16, seen);
            && Gathered(segs, n + 1, after, packetCounter)
            && Deliver(after, seen) == if n == |segs| - 1 then Some(after.buf) else None
  {
    assert ShapedAt(segs, 0, n);
    HeaderRoundTrip(msg, addr, 2, packetCounter, segs[n]);
    assert Concat(segs, 0, n + 1) == Concat(segs, 0, n) + segs[n].payload;
    assert Concat(segs, 0, 0) == [];
    var all := Concat(segs, 0, n);
    if n > 0 {
      assert before.buf == all;
    }
    assert (all + msg[3..])[..|all| + |segs[n].payload|] == all + segs[n].payload;
  }

  lemma OwnStep(role: Role, before: seq<Assembly>, j: Journey, n: nat)
    requires |before| == 7 && Travels(role, j) && n < |j.recs| && j.own[n] && |j.sents| <= 6
    requires Shaped(Segments(j.data, j.total), 0)
    requires var at := Rank(j.own, n);
             at == 0 || (at < |j.sents|
                         && Gathered(Segments(j.data, j.total), at, before[Lid(role, j.addr % 128)], j.packetCounter))
    ensures Rank(j.own, n) < |j.sents| && IsRecord(j.recs[n])
    ensures var segs, lid, at := Segments(j.data, j.total), Lid(role, j.addr % 128), Rank(j.own, n);
            var r := Process(role, before, j.recs[n]);
            && Gathered(segs, at + 1, r.0[lid], j.packetCounter)
            && r.1 == if at == |segs| - 1 then Some(r.0[lid].buf) else None
  {
    hide Process, Absorb, Deliver, Gathered, Received, Accepts, Touches, Wire, Sendable, IsMessage, Seen, Cut;
    var segs, at := Segments(j.data, j.total), Rank(j.own, n);
    assert Leg(role, j, n);
    assert Loaded(j, at) && SegmentedAt(j.sents, segs, j.addr, 2, j.packetCounter, at);
    assert ShapedAt(segs, 0, at);
    ProcessSegment(role, before, j.recs[n], j.frames[at], j.sents[at], j.hits[at], j.addr, j.packetCounter, segs[at]);
    AbsorbNext(segs, at, before[Lid(role, j.addr % 128)], j.addr, j.packetCounter, j.sents[at].msg);
  }

  // The records of an accepted packet are those of a short packet.
  lemma SentIsShort(role: Role, j: Journey, n: nat)
    requires Travels(role, j) && n < |j.recs| && j.own[n]
    ensures IsRecord(j.recs[n]) && ShortPacket(role, j.recs[n])
  {
    hide Decode, Wire, Touches;
    var segs, at := Segments(j.data, j.total), Rank(j.own, n);
    assert Leg(role, j, n);
    assert Loaded(j, at) && SegmentedAt(j.sents, segs, j.addr, 2, j.packetCounter, at);
    CutShape(j.data, 0, Max(63, j.total), 0);
    assert ShapedAt(segs, 0, at);
    ReceivedDecodes(j.recs[n], j.frames[at], j.sents[at], j.hits[at]);
    HeaderRoundTrip(j.sents[at].msg, j.addr, 2, j.packetCounter, segs[at]);
  }

  // While the packet is under way its row holds the segments received so far.
  ghost predicate UnderWay(role: Role, j: Journey, n: nat, now: seq<Assembly>)
    requires Travels(role, j) && n <= |j.recs| && |now| == 7
  {
    var at := Rank(j.own, n);
    0 < at < |j.sents| ==> Gathered(Segments(j.data, j.total), at, now[Lid(role, j.addr % 128)], j.packetCounter)
  }

  lemma LegsAreRecords(role: Role, j: Journey)
    requires Travels(role, j)
    ensures forall n | 0 <= n < |j.recs| :: IsRecord(j.recs[n])
  {
    forall n | 0 <= n < |j.recs| ensures IsRecord(j.recs[n]) {
      assert Leg(role, j, n);
    }
  }

  lemma {:induction false} JourneyPrefix(role: Role, tables: seq<Assembly>, j: Journey, n: nat)
    requires |tables| == 7 && Travels(role, j) && n <= |j.recs| && |j.sents| <= 6
    requires Shaped(Segments(j.data, j.total), 0) && forall i | 0 <= i < |j.recs| :: IsRecord(j.recs[i])
    ensures UnderWay(role, j, n, ProcessAll(role, tables, j.recs[..n]).0)
  {
    hide Process, Gathered, Received, Touches, Segmented, Shaped, Segments, Accepts;
    if n > 0 {
      var before := ProcessAll(role, tables, j.recs[..n - 1]).0;
      assert j.recs[..n][..n - 1] == j.recs[..n - 1];
      JourneyPrefix(role, tables, j, n - 1);
      assert Leg(role, j, n - 1);
      if j.own[n - 1] {
        OwnStep(role, before, j, n - 1);
      } else if 0 < Rank(j.own, n) < |j.sents| {
        ForeignLeavesRow(role, before, j.recs[n - 1], Lid(role, j.addr % 128));
      }
    }
  }

  // What record n hands over depends on the tables before it.
  lemma {:induction false} HandedOver(role: Role, tables: seq<Assembly>, recs: seq<seq<byte>>, m: nat, n: nat)
    requires |tables| == 7 && n < m <= |recs| && forall i | 0 <= i < |recs| :: IsRecord(recs[i])
    ensures ProcessAll(role, tables, recs[..m]).1[n] == Process(role, ProcessAll(role, tables, recs[..n]).0, recs[n]).1
  {
    assert recs[..m][..m - 1] == recs[..m - 1];
    if n < m - 1 {
      HandedOver(role, tables, recs, m - 1, n);
    }
  }

  // Whatever the tables held before and whatever is received in between, the packet comes out
  // exactly once, with its last frame: the original bytes, filled up to at least 63, and at most
  // 62 + 2 bytes of padding behind them.
  lemma EndToEnd(role: Role, tables: seq<Assembly>, j: Journey)
    requires |tables| == 7 && Travels(role, j)
    ensures 0 < |j.sents| <= 6 && forall n | 0 <= n < |j.recs| :: IsRecord(j.recs[n])
    ensures var out := ProcessAll(role, tables, j.recs).1;
            forall n | 0 <= n < |j.recs| && j.own[n] :: HandsOver(j, n, out[n])
  {
    hide Process, ProcessAll, Wire, IsMessage, Sendable, HandsOver, Leg, Shaped, Rank;
    LegsAreRecords(role, j);
    CutShape(j.data, 0, Max(63, j.total), 0);
    assert j.recs[..|j.recs|] == j.recs;
    forall n | 0 <= n < |j.recs| && j.own[n] ensures HandsOver(j, n, ProcessAll(role, tables, j.recs).1[n]) {
      OwnOut(role, tables, j, n);
      HandedOver(role, tables, j.recs, |j.recs|, n);
    }
  }

  lemma OwnOut(role: Role, tables: seq<Assembly>, j: Journey, n: nat)
    requires |tables| == 7 && Travels(role, j) && n < |j.recs| && j.own[n] && |j.sents| <= 6
    requires Shaped(Segments(j.data, j.total), 0) && forall i | 0 <= i < |j.recs| :: IsRecord(j.recs[i])
    ensures HandsOver(j, n, Process(role, ProcessAll(role, tables, j.recs[..n]).0, j.recs[n]).1)
  {
    hide Process, ProcessAll, Shaped, Received, Accepts, Touches, CutSize, Cut;
    var segs, size := Segments(j.data, j.total), Max(63, j.total);
    var before := ProcessAll(role, tables, j.recs[..n]).0;
    JourneyPrefix(role, tables, j, n);
    assert Leg(role, j, n);
    OwnStep(role, before, j, n);
    if Rank(j.own, n) == |segs| - 1 {
      CutJoins(j.data, 0, size, 0);
      PrefixOfPrefix(Process(role, before, j.recs[n]).0[Lid(role, j.addr % 128)].buf, j.data, CutSize(size), j.total);
    }
  }

  // The last of the packet's own records hands the packet over, the others nothing.
  predicate HandsOver(j: Journey, n: nat, out: Option<seq<byte>>)
    requires n < |j.own| && j.total <= |j.data|
  {
    if Rank(j.own, n) + 1 == |j.sents| then
      && out.Some? && j.total <= |out.value| <= Max(63, j.total) + 64 && 14 + |out.value| <= 1600
      && out.value[..j.total] == j.data[..j.total]
    else out == None
  }

  lemma PrefixOfPrefix(buf: seq<byte>, data: seq<byte>, m: nat, n: nat)
    requires n <= m <= |data| && m <= |buf| && buf[..m] == data[0..m]
    ensures buf[..n] == data[..n]
  {
    assert buf[..m][..n] == buf[..n] && data[0..m][..n] == data[..n];
  }
}
