// The allocation frame: built by the master, carried through the error correction, read
// by the clients (source/TDMA.cpp:346-404, 443-476, 174-188).
module AllocFrame {
  import opened Bytes
  import Fec
  import opened Tdma
  import opened Schedule
  import opened Uplink

  // ----- entries -----

  datatype Entry = Entry(id: byte, offset: nat, slots: nat, multi: byte)

  function EntryBytes(e: Entry): (b: seq<byte>)
    ensures |b| == 5
  {
    [e.id, e.offset % 256, (e.offset / 256) % 256, e.slots % 16, e.multi]
  }

  function Flat(es: seq<Entry>): (b: seq<byte>)
    ensures |b| == 5 * |es|
  {
    if es == [] then [] else Flat(es[..|es| - 1]) + EntryBytes(es[|es| - 1])
  }

  // Fast clients send in every frame; slow ones, by the low bits of their number, in one
  // frame out of four.
  function ClientEntry(a: Share, offset: seq<nat>, i: nat): Entry
    requires Sized(a) && |offset| == CLIENTS && i < CLIENTS
  {
    if a.isFast[i] then Entry(i, offset[i], a.slots[i], 0) else Entry(i, offset[i], 1, 32 + i % 4)
  }

  function ClientEntries(a: Share, offset: seq<nat>, n: nat): (es: seq<Entry>)
    requires Sized(a) && |offset| == CLIENTS && n <= CLIENTS
    ensures |es| <= n
  {
    if n == 0 then []
    else ClientEntries(a, offset, n - 1) + (if a.status[n - 1] then [ClientEntry(a, offset, n - 1)] else [])
  }

  const DISCOVERY: byte := 0x7E

  function AllEntries(a: Share, offset: seq<nat>, discovery: nat): (es: seq<Entry>)
    requires Sized(a) && |offset| == CLIENTS
    ensures |es| <= 8
  {
    ClientEntries(a, offset, CLIENTS) + [Entry(DISCOVERY, discovery, 1, 0x23)]
  }

  // ----- the master's side -----

  function Prefix(es: seq<Entry>): (b: seq<byte>)
    ensures |b| == 2 + 5 * |es|
  {
    [0xFF, 0x1F] + Flat(es)
  }

  // Five bytes at the advancing index, behind the entries es.
  method PutEntry(raw: array<byte>, at: nat, e: Entry, ghost es: seq<Entry>) returns (next: nat)
    requires at == 2 + 5 * |es| && at + 5 <= raw.Length && raw[..at] == Prefix(es)
    modifies raw
    ensures next == at + 5 && raw[..next] == Prefix(es + [e])
  {
    hide Flat;
    ghost var before := raw[..];
    raw[at] := e.id;
    raw[at + 1] := e.offset % 256;
    raw[at + 2] := (e.offset / 256) % 256;
    raw[at + 3] := e.slots % 16;
    raw[at + 4] := e.multi;
    next := at + 5;
    FlatMore(es, e);
    assert raw[..at] == before[..at];
    assert raw[at..next] == EntryBytes(e);
    assert raw[..next] == raw[..at] + raw[at..next];
    assert Prefix(es + [e]) == Prefix(es) + EntryBytes(e);
  }

  // The frame is at most 43 bytes, sent as 66; what follows its end mark is left over
  // from earlier frames.
  method BuildAllocFrame(raw: array<byte>, a: Share, offset: seq<nat>, discovery: nat) returns (size: nat)
    requires raw.Length == 150 && Sized(a) && |offset| == CLIENTS
    modifies raw
    ensures size == 66
    ensures IsAllocFrame(raw[..66], AllEntries(a, offset, discovery))
  {
    raw[0] := 0xFF;
    raw[1] := 0x1F;
    size := 2;
    assert raw[..2] == Prefix([]);
    for i := 0 to CLIENTS
      invariant size == 2 + 5 * |ClientEntries(a, offset, i)|
      invariant raw[..size] == Prefix(ClientEntries(a, offset, i))
    {
      if a.status[i] {
        size := PutEntry(raw, size, ClientEntry(a, offset, i), ClientEntries(a, offset, i));
      } else {
        assert ClientEntries(a, offset, i + 1) == ClientEntries(a, offset, i);
      }
    }
    size := PutEntry(raw, size, Entry(DISCOVERY, discovery, 1, 0x23), ClientEntries(a, offset, CLIENTS));
    size := CloseFrame(raw, size, AllEntries(a, offset, discovery));
  }

  // The end mark and the minimum length.
  method CloseFrame(raw: array<byte>, at: nat, ghost es: seq<Entry>) returns (size: nat)
    requires raw.Length == 150 && |es| <= 8 && at == 2 + 5 * |es| && raw[..at] == Prefix(es)
    modifies raw
    ensures size == 66 && IsAllocFrame(raw[..66], es)
  {
    raw[at] := 0xFF;
    size := at + 1;
    assert raw[..size] == raw[..at] + [raw[at]];
    assert raw[..66][..size] == raw[..size];
    if size < 66 {
      size := 66;
    }
  }

  lemma FlatMore(es: seq<Entry>, e: Entry)
    ensures Flat(es + [e]) == Flat(es) + EntryBytes(e)
  {
    assert (es + [e])[..|es|] == es;
  }

  predicate IsAllocFrame(data: seq<byte>, es: seq<Entry>) {
    && 2 + 5 * |es| < |data|
    && data[..2 + 5 * |es| + 1] == Prefix(es) + [0xFF]
  }

  // ----- the client's side -----

  // offset_time_TX_slave, time_max_TX_burst, my_multiframe_ID and _mask, and whether an
  // allocation has just been received.
  datatype Slave = Slave(offsetTime: nat, burst: int, multiId: nat, mask: nat, renewed: bool)

  // LUT_multif_mask
  function MaskOf(n: nat): nat {
    if n == 1 then 1 else if n == 2 then 3 else if n == 3 then 7 else if n == 4 then 15 else if n == 5 then 31 else 0
  }

  function TakeEntry(p: Params, e: seq<byte>): Slave
    requires |e| == 5
  {
    Slave((e[1] as nat + e[2] as nat * 256) * 10, ClientBurst(p, e[3] % 16), e[4] % 16, MaskOf(e[4] / 16), true)
  }

  // The walk over the entries, from position i.
  function Walk(p: Params, data: seq<byte>, i: nat, size: nat, myId: byte, st: Slave): Slave
    requires size + 5 <= |data|
    decreases size - i
  {
    if i < size && data[i] != 0xFF then
      Walk(p, data, i + 5, size, myId, if data[i] == myId then TakeEntry(p, data[i..i + 5]) else st)
    else st
  }

  // TDMA_slave_alloc_exploitation: the receive buffer is longer than the frame.
  method AllocExploitation(p: Params, data: seq<byte>, size: nat, myId: byte, before: Slave) returns (st: Slave)
    requires 3 <= size && size + 5 <= |data|
    ensures st == Walk(p, data, 2, size, myId, before)
  {
    st := before;
    var i := 2;
    var id := data[2];
    while id != 0xFF && i < size
      invariant 2 <= i < |data| && id == data[i]
      invariant Walk(p, data, i, size, myId, st) == Walk(p, data, 2, size, myId, before)
      decreases |data| - i
    {
      if id == myId {
        var burstSlots: nat := data[i + 3] % 16;
        st := Slave((data[i + 1] as nat + data[i + 2] as nat * 256) * 10, ClientBurst(p, burstSlots),
                    data[i + 4] % 16, MaskOf(data[i + 4] / 16), true);
        assert st == TakeEntry(p, data[i..i + 5]);
      }
      i := i + 5;
      id := data[i];
    }
  }

  // ----- what the client learns is what the master planned -----

  predicate Distinct(es: seq<Entry>) {
    && (forall k | 0 <= k < |es| :: es[k].id != 0xFF)
    && (forall j, k | 0 <= j < k < |es| :: es[j].id != es[k].id)
  }

  lemma {:induction false} FlatAt(es: seq<Entry>, k: nat)
    requires k < |es|
    ensures Flat(es)[5 * k..5 * k + 5] == EntryBytes(es[k])
  {
    if k < |es| - 1 {
      FlatAt(es[..|es| - 1], k);
      assert Flat(es)[5 * k..5 * k + 5] == Flat(es[..|es| - 1])[5 * k..5 * k + 5];
    }
  }

  lemma FrameAt(data: seq<byte>, es: seq<Entry>, k: nat)
    requires IsAllocFrame(data, es) && k < |es|
    ensures data[2 + 5 * k..7 + 5 * k] == EntryBytes(es[k]) && data[2 + 5 * k] == es[k].id
  {
    FlatAt(es, k);
    var all := Prefix(es) + [0xFF];
    assert data[..2 + 5 * |es| + 1][2 + 5 * k..7 + 5 * k] == data[2 + 5 * k..7 + 5 * k];
    assert all[2 + 5 * k..7 + 5 * k] == Flat(es)[5 * k..5 * k + 5];
    assert data[2 + 5 * k] == data[2 + 5 * k..7 + 5 * k][0];
  }

  lemma FrameEnd(data: seq<byte>, es: seq<Entry>)
    requires IsAllocFrame(data, es)
    ensures data[2 + 5 * |es|] == 0xFF
  {
    var all := Prefix(es) + [0xFF];
    assert data[..2 + 5 * |es| + 1][2 + 5 * |es|] == all[2 + 5 * |es|];
  }

  // From entry k on, the walk takes my entry if it is still ahead and changes nothing else.
  lemma {:induction false} WalkFinds(p: Params, data: seq<byte>, es: seq<Entry>, size: nat, myId: byte,
                                     st: Slave, k: nat)
    requires size + 5 <= |data| && IsAllocFrame(data[..size], es) && Distinct(es) && k <= |es|
    ensures (forall j | k <= j < |es| :: es[j].id != myId) ==> Walk(p, data, 2 + 5 * k, size, myId, st) == st
    ensures forall j | k <= j < |es| && es[j].id == myId ::
              Walk(p, data, 2 + 5 * k, size, myId, st) == TakeEntry(p, EntryBytes(es[j]))
    decreases |es| - k
  {
    if k == |es| {
      FrameEnd(data[..size], es);
    } else {
      FrameAt(data[..size], es, k);
      assert data[2 + 5 * k..7 + 5 * k] == data[..size][2 + 5 * k..7 + 5 * k];
      var next := if es[k].id == myId then TakeEntry(p, EntryBytes(es[k])) else st;
      WalkFinds(p, data, es, size, myId, next, k + 1);
    }
  }

  lemma {:induction false} ClientEntriesDistinct(a: Share, offset: seq<nat>, n: nat)
    requires Sized(a) && |offset| == CLIENTS && n <= CLIENTS
    ensures forall k | 0 <= k < |ClientEntries(a, offset, n)| :: ClientEntries(a, offset, n)[k].id < n
    ensures Distinct(ClientEntries(a, offset, n))
  {
    if n > 0 {
      ClientEntriesDistinct(a, offset, n - 1);
    }
  }

  lemma {:induction false} ClientListed(a: Share, offset: seq<nat>, n: nat, i: nat) returns (k: nat)
    requires Sized(a) && |offset| == CLIENTS && i < n <= CLIENTS && a.status[i]
    ensures k < |ClientEntries(a, offset, n)| && ClientEntries(a, offset, n)[k] == ClientEntry(a, offset, i)
  {
    if i == n - 1 {
      k := |ClientEntries(a, offset, n)| - 1;
    } else {
      k := ClientListed(a, offset, n - 1, i);
    }
  }

  lemma AllDistinct(a: Share, offset: seq<nat>, discovery: nat)
    requires Sized(a) && |offset| == CLIENTS
    ensures Distinct(AllEntries(a, offset, discovery))
  {
    ClientEntriesDistinct(a, offset, CLIENTS);
  }

  // The bytes on the air. A fast client's entry: number, offset with its low byte first, slots, zero.
  lemma FastEntryOnAir(a: Share, offset: seq<nat>, i: nat)
    requires Sized(a) && |offset| == CLIENTS && i < CLIENTS && a.isFast[i]
    requires offset[i] < 0x1_0000 && a.slots[i] < 16
    ensures EntryBytes(ClientEntry(a, offset, i)) == [i, offset[i] % 0x100, offset[i] / 0x100, a.slots[i], 0]
  {}

  // A slow one's: one slot, one frame in four, by the low bits of its number.
  lemma SlowEntryOnAir(a: Share, offset: seq<nat>, i: nat)
    requires Sized(a) && |offset| == CLIENTS && i < CLIENTS && !a.isFast[i] && offset[i] < 0x1_0000
    ensures EntryBytes(ClientEntry(a, offset, i)) == [i, offset[i] % 0x100, offset[i] / 0x100, 1, 0x20 + i % 4]
  {}

  // With nobody connected the frame is the discovery slot alone.
  lemma EmptyFrameOnAir(a: Share, offset: seq<nat>, discovery: nat, sent: seq<byte>)
    requires Sized(a) && |offset| == CLIENTS && discovery < 0x1_0000
    requires (forall i | 0 <= i < CLIENTS :: !a.status[i]) && IsAllocFrame(sent, AllEntries(a, offset, discovery))
    ensures sent[..8] == [0xFF, 0x1F, 0x7E, discovery % 0x100, discovery / 0x100, 1, 0x23, 0xFF]
  {
    hide EntryBytes;
    NoEntries(a, offset, CLIENTS);
    var e, none: seq<Entry> := Entry(0x7E, discovery, 1, 0x23), [];
    assert AllEntries(a, offset, discovery) == [e];
    assert [e][..0] == none && Flat(none) == [] && Flat([e]) == Flat(none) + EntryBytes(e);
    DiscoveryBytes(discovery);
    assert sent[..8] == Prefix([e]) + [0xFF] == [0xFF, 0x1F] + EntryBytes(e) + [0xFF];
  }

  lemma DiscoveryBytes(discovery: nat)
    requires discovery < 0x1_0000
    ensures EntryBytes(Entry(0x7E, discovery, 1, 0x23)) == [0x7E, discovery % 0x100, discovery / 0x100, 1, 0x23]
  {}

  lemma {:induction false} NoEntries(a: Share, offset: seq<nat>, n: nat)
    requires Sized(a) && |offset| == CLIENTS && n <= CLIENTS && forall i | 0 <= i < CLIENTS :: !a.status[i]
    ensures ClientEntries(a, offset, n) == []
  {
    if n > 0 {
      NoEntries(a, offset, n - 1);
    }
  }

  // What the master planned for a station.
  function Planned(p: Params, offset: nat, slots: nat, multiId: nat, mask: nat): Slave {
    Slave(10 * offset, ClientBurst(p, slots), multiId, mask, true)
  }

  lemma EntryRoundTrip(p: Params, e: Entry)
    requires e.offset < 0x1_0000 && e.slots < 16
    ensures TakeEntry(p, EntryBytes(e)) == Planned(p, e.offset, e.slots, e.multi % 16, MaskOf(e.multi / 16))
  {
    assert e.offset % 256 + (e.offset / 256) * 256 == e.offset;
  }

  // A frame as received: the 66 bytes built, through encoding, damage and decoding, and
  // whatever the receive buffer holds behind them.
  ghost predicate Heard(data: seq<byte>, sent: seq<byte>) {
    exists w, k: nat :: IsRepairable(w, sent, k) && |data| >= 71 && data[..66] == Fec.Decode(w)
  }

  predicate IsRepairable(w: seq<byte>, sent: seq<byte>, k: nat) {
    |sent| % 3 == 0 && Fec.Repairable(w, Fec.Encode(sent), k)
  }

  lemma HeardIsSent(data: seq<byte>, sent: seq<byte>)
    requires |sent| == 66 && Heard(data, sent)
    ensures |data| >= 71 && data[..66] == sent
  {
    var w, k: nat :| IsRepairable(w, sent, k) && |data| >= 71 && data[..66] == Fec.Decode(w);
    Fec.RepairableDecodes(w, sent, k);
  }

  // Every listed client computes exactly the offset, burst length, number and mask that
  // the master planned for it.
  lemma ClientLearnsPlan(p: Params, a: Share, offset: seq<nat>, discovery: nat, sent: seq<byte>, data: seq<byte>,
                         i: nat, before: Slave)
    requires Sized(a) && Complete(a) && |offset| == CLIENTS && i < CLIENTS && a.status[i] && offset[i] < 0x1_0000
    requires |sent| == 66 && IsAllocFrame(sent, AllEntries(a, offset, discovery)) && Heard(data, sent)
    ensures |data| >= 71
    ensures Walk(p, data, 2, 66, i, before)
         == Planned(p, offset[i], Length(a, i), if a.isFast[i] then 0 else i % 4, if a.isFast[i] then 0 else 3)
  {
    HeardIsSent(data, sent);
    var es := AllEntries(a, offset, discovery);
    AllDistinct(a, offset, discovery);
    var k := ClientListed(a, offset, CLIENTS, i);
    assert es[k] == ClientEntry(a, offset, i);
    WalkFinds(p, data, es, 66, i, before, 0);
    ClientEntryPlan(p, a, offset, i);
  }

  lemma ClientEntryPlan(p: Params, a: Share, offset: seq<nat>, i: nat)
    requires Sized(a) && Complete(a) && |offset| == CLIENTS && i < CLIENTS && a.status[i] && offset[i] < 0x1_0000
    ensures TakeEntry(p, EntryBytes(ClientEntry(a, offset, i)))
         == Planned(p, offset[i], Length(a, i), if a.isFast[i] then 0 else i % 4, if a.isFast[i] then 0 else 3)
  {
    if a.isFast[i] {
      HeldMonotone(a, i, CLIENTS);
    }
    EntryRoundTrip(p, ClientEntry(a, offset, i));
  }

  // So does a station that is not connected yet and uses the discovery number.
  lemma DiscoveryLearnsPlan(p: Params, a: Share, offset: seq<nat>, discovery: nat, sent: seq<byte>, data: seq<byte>,
                            before: Slave)
    requires Sized(a) && |offset| == CLIENTS && discovery < 0x1_0000
    requires |sent| == 66 && IsAllocFrame(sent, AllEntries(a, offset, discovery)) && Heard(data, sent)
    ensures |data| >= 71
    ensures Walk(p, data, 2, 66, DISCOVERY, before) == Planned(p, discovery, 1, 3, 3)
  {
    hide Heard, Prefix, Flat, TakeEntry, Walk, EntryBytes;
    HeardIsSent(data, sent);
    var es := AllEntries(a, offset, discovery);
    ClientEntriesDistinct(a, offset, CLIENTS);
    var k := |es| - 1;
    WalkFinds(p, data, es, 66, DISCOVERY, before, 0);
    EntryRoundTrip(p, es[k]);
  }

  // A client that is not listed keeps what it had.
  lemma UnlistedKeeps(p: Params, a: Share, offset: seq<nat>, discovery: nat, sent: seq<byte>, data: seq<byte>,
                      i: nat, before: Slave)
    requires Sized(a) && |offset| == CLIENTS && i < CLIENTS && !a.status[i]
    requires |sent| == 66 && IsAllocFrame(sent, AllEntries(a, offset, discovery)) && Heard(data, sent)
    ensures |data| >= 71 && Walk(p, data, 2, 66, i, before) == before
  {
    hide Heard, Prefix, Flat, TakeEntry, Walk, EntryBytes;
    HeardIsSent(data, sent);
    var es := AllEntries(a, offset, discovery);
    ClientEntriesDistinct(a, offset, CLIENTS);
    NotListed(a, offset, CLIENTS, i);
    WalkFinds(p, data, es, 66, i, before, 0);
  }

  lemma {:induction false} NotListed(a: Share, offset: seq<nat>, n: nat, i: nat)
    requires Sized(a) && |offset| == CLIENTS && i < CLIENTS && n <= CLIENTS && !a.status[i]
    ensures forall k | 0 <= k < |ClientEntries(a, offset, n)| :: ClientEntries(a, offset, n)[k].id != i
  {
    if n > 0 {
      NotListed(a, offset, n - 1, i);
    }
  }

  // ----- selection by frame number -----

  // (frame & mask) == (id & mask) for a mask of low bits.
  predicate Selected(frameNb: nat, st: Slave) {
    frameNb % (st.mask + 1) == st.multiId % (st.mask + 1)
  }

  // With what they learnt, clients send in exactly the frames the schedule expects.
  lemma SelectionMatchesSchedule(p: Params, a: Share, offset: nat, i: nat, frameNb: nat)
    requires Sized(a) && i < CLIENTS && Active(a, i)
    ensures Selected(frameNb,
                     Planned(p, offset, Length(a, i), if a.isFast[i] then 0 else i % 4, if a.isFast[i] then 0 else 3))
            <==> OnAir(a, i, frameNb)
  {}

  // No two slow clients of the same slow slot, and no slow client and the discovery
  // station, are ever selected for the same frame.
  lemma MultiFrameExclusion(p: Params, a: Share, i: nat, j: nat, frameNb: nat, off1: nat, off2: nat)
    requires Sized(a) && i < j < CLIENTS && Active(a, i) && Active(a, j) && !a.isFast[i] && !a.isFast[j]
    ensures Selected(frameNb, Planned(p, off1, 1, i % 4, 3)) && Selected(frameNb, Planned(p, off2, 1, j % 4, 3))
            ==> i < 4 <= j
    ensures j >= 4
            ==> !(Selected(frameNb, Planned(p, off1, 1, j % 4, 3)) && Selected(frameNb, Planned(p, off2, 1, 3, 3)))
  {
    if Selected(frameNb, Planned(p, off1, 1, i % 4, 3)) && Selected(frameNb, Planned(p, off2, 1, j % 4, 3)) {
      SlowSlotExclusive(a, i, j, frameNb);
    }
  }

  // ----- from the plan to the air -----

  // What the master computes from its shares and timing advances, sent to everybody.
  ghost predicate Announced(p: Params, a: Share, tas: seq<int>, offset: seq<nat>, discovery: nat, sent: seq<byte>) {
    && Sized(a) && Complete(a) && |offset| == |tas| == CLIENTS && |sent| == 66
    && (forall i | 0 <= i < CLIENTS && Active(a, i) :: offset[i] == Offset(p, a, tas[i], i) < 0x1_0000)
    && IsAllocFrame(sent, AllEntries(a, offset, discovery))
  }

  // What client i makes of the frame it received.
  function Learnt(p: Params, data: seq<byte>, i: nat, before: Slave): Slave
    requires i < CLIENTS
  {
    if |data| >= 71 then Walk(p, data, 2, 66, i, before) else before
  }

  // When the burst of such a client begins and ends at the master, in tenths of a microsecond.
  function BurstBegin(st: Slave, ta: int): int {
    10 * st.offsetTime + ta
  }

  function BurstEnd(st: Slave, ta: int): int {
    BurstBegin(st, ta) + 10 * st.burst
  }

  lemma LearntTimes(p: Params, a: Share, tas: seq<int>, offset: seq<nat>, discovery: nat, sent: seq<byte>,
                    data: seq<byte>, i: nat, before: Slave, frameNb: nat)
    requires Announced(p, a, tas, offset, discovery, sent) && Heard(data, sent) && i < CLIENTS && Active(a, i)
    ensures var st := Learnt(p, data, i, before);
            && (Selected(frameNb, st) <==> OnAir(a, i, frameNb))
            && BurstBegin(st, tas[i]) == Arrival(p, a, tas[i], i) && BurstEnd(st, tas[i]) == Departure(p, a, tas[i], i)
  {
    hide AllEntries, IsAllocFrame, Walk, Heard, Complete;
    ClientLearnsPlan(p, a, offset, discovery, sent, data, i, before);
    SelectionMatchesSchedule(p, a, offset[i], i, frameNb);
  }

  // Clients that work from the frame they received, each with repairable damage, and send when
  // they find themselves selected reach the master one after the other, whatever their distances.
  lemma ClientsTakeTurns(p: Params, a: Share, tas: seq<int>, offset: seq<nat>, discovery: nat, sent: seq<byte>,
                         i: nat, j: nat, data1: seq<byte>, data2: seq<byte>,
                         before1: Slave, before2: Slave, frameNb: nat)
    requires Announced(p, a, tas, offset, discovery, sent) && Heard(data1, sent) && Heard(data2, sent)
    requires i < j < CLIENTS && Active(a, i) && Active(a, j) && InRange(tas[i]) && InRange(tas[j])
    requires Selected(frameNb, Learnt(p, data1, i, before1)) && Selected(frameNb, Learnt(p, data2, j, before2))
    ensures var one, two := Learnt(p, data1, i, before1), Learnt(p, data2, j, before2);
            || BurstBegin(two, tas[j]) - BurstEnd(one, tas[i]) >= 10 * p.margin - 288
            || BurstBegin(one, tas[i]) - BurstEnd(two, tas[j]) >= 10 * p.margin - 288
  {
    hide AllEntries, IsAllocFrame, Walk, Heard, Arrival, Departure, OnAir, Selected, Learnt;
    LearntTimes(p, a, tas, offset, discovery, sent, data1, i, before1, frameNb);
    LearntTimes(p, a, tas, offset, discovery, sent, data2, j, before2, frameNb);
    UplinkWindowsDisjoint(p, a, tas, i, j, frameNb);
  }

  // And all of them inside the frame.
  lemma ClientsFitFrame(p: Params, a: Share, tas: seq<int>, offset: seq<nat>, discovery: nat, sent: seq<byte>,
                        i: nat, data: seq<byte>, before: Slave, frameNb: nat)
    requires Known(p) && Announced(p, a, tas, offset, discovery, sent) && Heard(data, sent)
    requires i < CLIENTS && Active(a, i) && InRange(tas[i])
    ensures BurstEnd(Learnt(p, data, i, before), tas[i]) <= 10 * p.frame
  {
    hide AllEntries, IsAllocFrame, Walk, Heard, Arrival, OnAir, Selected, Learnt;
    LearntTimes(p, a, tas, offset, discovery, sent, data, i, before, frameNb);
    WindowsFitFrame(p, a, tas[i], i);
  }

  // ----- the whole allocation -----

  // The offsets computed are 16-bit numbers, so that the frame holds them whole.
  method Timings(p: Params, a: Share, tas: seq<int>, stored: seq<nat>)
    returns (offset: seq<nat>, maxBurst: int, discovery: nat)
    requires Known(p) && Sized(a) && Complete(a) && |tas| == |stored| == CLIENTS
    ensures |offset| == CLIENTS && maxBurst == MasterBurst(p, a.master) && discovery == DiscoveryOffset(p, a)
    ensures forall i | 0 <= i < CLIENTS && Active(a, i) :: offset[i] == Offset(p, a, tas[i], i) < 0x1_0000
    ensures forall i | 0 <= i < CLIENTS && !Active(a, i) :: offset[i] == stored[i]
  {
    hide Held, Start, FirstStart, Complete, Known;
    var at, last;
    at, maxBurst, last := BuildTimings(p, a, tas, stored);
    forall i | 0 <= i < CLIENTS && Active(a, i) ensures 0 <= Offset(p, a, tas[i], i) < 0x1_0000 {
      WindowsFitFrame(p, a, if InRange(tas[i]) then tas[i] else 0, i);
    }
    DiscoveryFitsFrame(p, a, 0);
    offset, discovery := at, last;
  }

  // Sections 1) to 5), after the ageing of the clients.
  method ShareSlots(m: Master, frameNb: nat, downlink: nat) returns (a: Share)
    requires m.Valid() && downlink <= 30
    modifies m
    ensures m.Valid() && forall i | 0 <= i < CLIENTS :: m.Client(i) == Frame(old(m.Client(i)), frameNb)
    ensures a == m.View(downlink) && Sized(a) && Complete(a)
    ensures (Surplus(a) ==> NeedsMet(a)) && Fair(a) && MasterServed(a) && InTurn(a) && Evenly(a)
  {
    hide Frame, Complete, Surplus, NeedsMet, Fair, MasterServed, InTurn, Evenly;
    m.BeginAllocation(frameNb);
    label Aged:
    m.AllocateSlots(downlink);
    assert forall i | 0 <= i < CLIENTS :: m.Client(i) == old@Aged(m.Client(i));
    a := m.View(downlink);
  }

  // The frame is built and encoded behind its three leading bytes.
  method EncodeAllocation(raw: array<byte>, out: array<byte>, a: Share, offset: seq<nat>, discovery: nat)
    requires raw != out && raw.Length == 150 && out.Length == 384 && Sized(a) && |offset| == CLIENTS
    modifies raw, out
    ensures IsAllocFrame(raw[..66], AllEntries(a, offset, discovery))
    ensures out[0] == 0 && out[1] == 3 && out[3..95] == Fec.Encode(raw[..66])
  {
    hide IsAllocFrame, AllEntries, Fec.Encode, Fec.EncodeFirst;
    var size := BuildAllocFrame(raw, a, offset, discovery);
    ghost var bytes := raw[..];
    out[0] := 0;
    out[1] := Fec.SizeWithFec(size) + 1 - 90;
    var sizeWithFec := Fec.FecEncode2(raw[..], out, 3, size);
    assert raw[..] == bytes;
    Fec.EncodedFields(bytes, 22);
    assert bytes[..66] == raw[..66];
  }

  // TDMA_master_allocation: what is sent is what the clients' theorems above start from.
  method MasterAllocation(m: Master, p: Params, tas: seq<int>, stored: seq<nat>, frameNb: nat, backlog: nat,
                          raw: array<byte>, out: array<byte>)
    returns (offset: seq<nat>, maxBurst: int, discovery: nat, ghost a: Share)
    requires m.Valid() && Known(p) && |tas| == |stored| == CLIENTS
    requires raw != out && raw.Length == 150 && out.Length == 384
    modifies m, raw, out
    ensures m.Valid() && forall i | 0 <= i < CLIENTS :: m.Client(i) == Frame(old(m.Client(i)), frameNb)
    ensures a == m.View(if backlog > 30 then 30 else backlog)
    ensures (Surplus(a) ==> NeedsMet(a)) && Fair(a) && MasterServed(a) && InTurn(a) && Evenly(a)
    ensures maxBurst == MasterBurst(p, a.master)
    ensures Announced(p, a, tas, offset, discovery, raw[..66]) && discovery == DiscoveryOffset(p, a)
    ensures out[0] == 0 && out[1] == 3 && out[3..95] == Fec.Encode(raw[..66])
  {
    hide Frame, Complete, Surplus, NeedsMet, Fair, MasterServed, InTurn, Evenly,
         IsAllocFrame, AllEntries, Fec.Encode, Offset, Known;
    var share := ShareSlots(m, frameNb, if backlog > 30 then 30 else backlog);
    a := share;
    offset, maxBurst, discovery := Timings(p, share, tas, stored);
    EncodeAllocation(raw, out, share, offset, discovery);
  }
}
