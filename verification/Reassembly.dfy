// Cutting a packet into segments and putting the segments together again
// (source/L1L2_radio.cpp:413-461 and 195-227).
module Reassembly {
  import opened Bytes

  datatype Option<T> = None | Some(value: T)

  // One segment as the receiver sees it after error correction.
  datatype Segment = Segment(counter: nat, last: bool, payload: seq<byte>)

  // The payloads of segments from, from + 1, .. to - 1.
  function Concat(p: seq<Segment>, from: nat, to: nat): seq<byte>
    requires to <= |p|
  {
    if from >= to then [] else Concat(p, from, to - 1) + p[to - 1].payload
  }

  // ----- the receiver's per-client tables -----

  // ethernet_buffer (past its 14 header bytes, size_received of them), prev_seg_counter
  // and curr_pkt_counter.
  datatype Assembly = Assembly(buf: seq<byte>, prev: nat, cur: nat)

  function Absorb(st: Assembly, pkt: nat, seg: Segment): Assembly {
    var buf := if seg.counter == 0 then seg.payload
               else if seg.counter == st.prev + 1 && pkt == st.cur then st.buf + seg.payload
               else [];
    Assembly(buf, seg.counter, if seg.counter == 0 then pkt else st.cur)
  }

  // What is handed to the IP layer once the segment is absorbed.
  function Deliver(after: Assembly, seg: Segment): Option<seq<byte>> {
    if seg.last && |after.buf| > 0 then Some(after.buf) else None
  }

  // ----- a sender's stream and the part of it that arrives -----

  // At most six segments: packets are shorter than 1510 bytes.
  predicate IsPacket(p: seq<Segment>) {
    1 <= |p| <= 6
    && forall s | 0 <= s < |p| :: p[s].counter == s && (p[s].last <==> s == |p| - 1) && 1 <= |p[s].payload| <= 252
  }

  predicate IsStream(packets: seq<seq<Segment>>) {
    forall p | p in packets :: IsPacket(p)
  }

  // Segment number of packet number.
  datatype Hit = Hit(packet: nat, segment: nat)

  predicate InRange(packets: seq<seq<Segment>>, h: Hit) {
    h.packet < |packets| && h.segment < |packets[h.packet]|
  }

  predicate AllInRange(packets: seq<seq<Segment>>, hits: seq<Hit>) {
    forall k | 0 <= k < |hits| :: InRange(packets, hits[k])
  }

  predicate Follows(hits: seq<Hit>, k: nat)
    requires 0 < k < |hits|
  {
    var g, h := hits[k - 1], hits[k];
    g.packet < h.packet || (g.packet == h.packet && g.segment < h.segment)
  }

  predicate InOrder(packets: seq<seq<Segment>>, hits: seq<Hit>) {
    AllInRange(packets, hits) && forall k | 0 < k < |hits| :: Follows(hits, k)
  }

  // The packet of the last first-segment among the first k hits.
  function LastFirst(hits: seq<Hit>, k: nat, base: nat): nat
    requires k <= |hits|
  {
    if k == 0 then base
    else if hits[k - 1].segment == 0 then hits[k - 1].packet
    else LastFirst(hits, k - 1, base)
  }

  // The four-bit packet counter cannot have come round unnoticed.
  predicate NearAt(hits: seq<Hit>, k: nat, base: nat)
    requires k < |hits|
  {
    base <= hits[k].packet < LastFirst(hits, k, base) + 16
  }

  predicate Near(hits: seq<Hit>, base: nat) {
    forall k | 0 <= k < |hits| :: NearAt(hits, k, base)
  }

  function SegmentAt(packets: seq<seq<Segment>>, h: Hit): Segment
    requires InRange(packets, h)
  {
    packets[h.packet][h.segment]
  }

  function After(packets: seq<seq<Segment>>, hits: seq<Hit>, k: nat, st: Assembly): Assembly
    requires AllInRange(packets, hits) && k <= |hits|
  {
    if k == 0 then st
    else Absorb(After(packets, hits, k - 1, st), hits[k - 1].packet % 16, SegmentAt(packets, hits[k - 1]))
  }

  function DeliveredAt(packets: seq<seq<Segment>>, hits: seq<Hit>, k: nat, st: Assembly): Option<seq<byte>>
    requires AllInRange(packets, hits) && k < |hits|
  {
    Deliver(After(packets, hits, k + 1, st), SegmentAt(packets, hits[k]))
  }

  // A receiver that has nothing in its buffer and takes the stream up at packet base.
  predicate Fresh(st: Assembly, base: nat) {
    st.buf == [] && st.cur == base % 16
  }

  // ----- the invariant -----

  // Hit k ends a run of segments from.. of its packet, received one right after the other.
  predicate Unbroken(hits: seq<Hit>, k: nat, from: nat)
    requires k < |hits|
  {
    if hits[k].segment <= from then hits[k].segment == from
    else k > 0 && hits[k - 1] == Hit(hits[k].packet, hits[k].segment - 1) && Unbroken(hits, k - 1, from)
  }

  // The buffer is empty, or holds exactly the unbroken run that ends at the last hit.
  predicate Inv(packets: seq<seq<Segment>>, hits: seq<Hit>, k: nat, now: Assembly, first: nat, from: nat)
    requires k <= |hits| && (k > 0 ==> InRange(packets, hits[k - 1]))
  {
    && now.cur == first % 16
    && (k > 0 ==> now.prev == hits[k - 1].segment)
    && (now.buf != [] ==>
          && k > 0 && hits[k - 1].packet == first
          && Unbroken(hits, k - 1, from)
          && now.buf == Concat(packets[first], from, now.prev + 1))
  }

  lemma {:induction false} LastFirstBound(packets: seq<seq<Segment>>, hits: seq<Hit>, k: nat, base: nat)
    requires InOrder(packets, hits) && k < |hits| && Near(hits, base)
    ensures LastFirst(hits, k, base) <= hits[k].packet < LastFirst(hits, k, base) + 16
  {
    assert NearAt(hits, k, base);
    if k > 0 {
      LastFirstBound(packets, hits, k - 1, base);
      assert Follows(hits, k);
    }
  }

  lemma SameCounter(p: nat, q: nat)
    requires q <= p < q + 16 && p % 16 == q % 16
    ensures p == q
  {}

  lemma {:induction false} ConcatLength(p: seq<Segment>, from: nat, to: nat)
    requires IsPacket(p) && from <= to <= |p|
    ensures to - from <= |Concat(p, from, to)| <= 252 * (to - from)
  {
    if from < to {
      ConcatLength(p, from, to - 1);
    }
  }

  lemma {:induction false} ConcatSplit(p: seq<Segment>, from: nat, to: nat)
    requires from <= to <= |p|
    ensures Concat(p, 0, to) == Concat(p, 0, from) + Concat(p, from, to)
  {
    if from < to {
      ConcatSplit(p, from, to - 1);
      var a, b, c := Concat(p, 0, from), Concat(p, from, to - 1), p[to - 1].payload;
      assert (a + b) + c == a + (b + c);
    } else {
      assert Concat(p, from, to) == [];
    }
  }

  lemma {:induction false} AssemblyInvariant(packets: seq<seq<Segment>>, hits: seq<Hit>, k: nat,
                                             st: Assembly, base: nat)
    returns (from: nat)
    requires IsStream(packets) && InOrder(packets, hits) && Near(hits, base) && Fresh(st, base) && k <= |hits|
    ensures Inv(packets, hits, k, After(packets, hits, k, st), LastFirst(hits, k, base), from)
  {
    from := 0;
    if k > 0 {
      from := AssemblyInvariant(packets, hits, k - 1, st, base);
      LastFirstBound(packets, hits, k - 1, base);
      assert packets[hits[k - 1].packet] in packets;
      from := StepInvariant(packets, hits, k, After(packets, hits, k - 1, st), LastFirst(hits, k - 1, base), from);
    }
  }

  // One more segment: a first one starts a buffer, its successor extends it, any other
  // empties it.
  lemma StepInvariant(packets: seq<seq<Segment>>, hits: seq<Hit>, k: nat, before: Assembly, first: nat, from: nat)
    returns (from': nat)
    requires 0 < k <= |hits| && InRange(packets, hits[k - 1]) && (k > 1 ==> InRange(packets, hits[k - 2]))
    requires first <= hits[k - 1].packet < first + 16
    requires Inv(packets, hits, k - 1, before, first, from)
    requires SegmentAt(packets, hits[k - 1]).counter == hits[k - 1].segment
    ensures Inv(packets, hits, k, Absorb(before, hits[k - 1].packet % 16, SegmentAt(packets, hits[k - 1])),
                if hits[k - 1].segment == 0 then hits[k - 1].packet else first, from')
  {
    var h := hits[k - 1];
    from' := h.segment;
    assert Concat(packets[h.packet], h.segment, h.segment) == [];
    if h.segment > 0 && h.segment == before.prev + 1 && h.packet % 16 == before.cur {
      SameCounter(h.packet, first);
      if before.buf != [] {
        from' := from;
        UnbrokenStart(hits, k - 2, from);
      }
    }
  }

  lemma {:induction false} UnbrokenStart(hits: seq<Hit>, k: nat, from: nat)
    requires k < |hits| && Unbroken(hits, k, from)
    ensures from <= hits[k].segment <= from + k
  {
    if hits[k].segment > from {
      UnbrokenStart(hits, k - 1, from);
    }
  }

  // ----- what loss can do and what it cannot -----

  // Whatever is delivered consists of consecutive segments of one packet, received
  // without a gap and ending at its last one; packets are never mixed.
  lemma NeverMixed(packets: seq<seq<Segment>>, hits: seq<Hit>, k: nat, st: Assembly, base: nat) returns (from: nat)
    requires IsStream(packets) && InOrder(packets, hits) && Near(hits, base) && Fresh(st, base) && k < |hits|
    ensures DeliveredAt(packets, hits, k, st).Some? ==>
              && hits[k].segment == |packets[hits[k].packet]| - 1
              && Unbroken(hits, k, from)
              && DeliveredAt(packets, hits, k, st).value
                  == Concat(packets[hits[k].packet], from, |packets[hits[k].packet]|)
  {
    hide Near, Fresh, LastFirst, Follows;
    from := AssemblyInvariant(packets, hits, k + 1, st, base);
    var h, after := hits[k], After(packets, hits, k + 1, st);
    var p := packets[h.packet];
    assert p in packets;
    assert after.prev == h.segment && p[h.segment].last <==> h.segment == |p| - 1;
  }

  // Segment h is among the first n hits.
  ghost predicate Arrived(hits: seq<Hit>, n: nat, h: Hit)
    requires n <= |hits|
  {
    h in hits[..n]
  }

  // Hit k is the last segment of its packet, and every other one has arrived before it.
  ghost predicate FullyReceived(packets: seq<seq<Segment>>, hits: seq<Hit>, k: nat)
    requires AllInRange(packets, hits) && k < |hits|
  {
    var p := hits[k].packet;
    hits[k].segment == |packets[p]| - 1 && forall s | 0 <= s < |packets[p]| :: Arrived(hits, k + 1, Hit(p, s))
  }

  lemma {:induction false} Ordered(packets: seq<seq<Segment>>, hits: seq<Hit>, i: nat, k: nat)
    requires InOrder(packets, hits) && i < k < |hits|
    ensures hits[i].packet < hits[k].packet || (hits[i].packet == hits[k].packet && hits[i].segment < hits[k].segment)
  {
    assert Follows(hits, k);
    if i < k - 1 {
      Ordered(packets, hits, i, k - 1);
    }
  }

  // In an ordered stream, segments that have all arrived stand one right after the other.
  lemma {:induction false} ArrivedIsUnbroken(packets: seq<seq<Segment>>, hits: seq<Hit>, k: nat)
    requires InOrder(packets, hits) && k < |hits|
    requires forall s | 0 <= s <= hits[k].segment :: Arrived(hits, k + 1, Hit(hits[k].packet, s))
    ensures Unbroken(hits, k, 0)
  {
    var h := hits[k];
    if h.segment > 0 {
      assert Arrived(hits, k + 1, Hit(h.packet, h.segment - 1));
      var i :| 0 <= i < k + 1 && hits[..k + 1][i] == Hit(h.packet, h.segment - 1);
      assert i < k;
      Ordered(packets, hits, k - 1, k);
      if i < k - 1 {
        Ordered(packets, hits, i, k - 1);
      }
      assert hits[k - 1] == Hit(h.packet, h.segment - 1);
      forall s | 0 <= s <= h.segment - 1 ensures Arrived(hits, k, Hit(h.packet, s)) {
        assert Arrived(hits, k + 1, Hit(h.packet, s));
        assert hits[..k + 1] == hits[..k] + [h];
      }
      ArrivedIsUnbroken(packets, hits, k - 1);
    }
  }

  lemma {:induction false} UnbrokenIsArrived(hits: seq<Hit>, k: nat, s: nat)
    requires k < |hits| && Unbroken(hits, k, 0) && s <= hits[k].segment
    ensures Arrived(hits, k + 1, Hit(hits[k].packet, s))
  {
    if s == hits[k].segment {
      assert hits[..k + 1][k] == Hit(hits[k].packet, s);
    } else {
      UnbrokenIsArrived(hits, k - 1, s);
      assert hits[..k + 1] == hits[..k] + [hits[k]];
    }
  }

  lemma CounterOf(packets: seq<seq<Segment>>, h: Hit)
    requires IsStream(packets) && InRange(packets, h)
    ensures SegmentAt(packets, h).counter == h.segment
  {
    assert packets[h.packet] in packets;
  }

  lemma {:induction false} BuildsUp(packets: seq<seq<Segment>>, hits: seq<Hit>, k: nat, st: Assembly)
    requires IsStream(packets) && AllInRange(packets, hits) && k < |hits| && Unbroken(hits, k, 0)
    ensures var h := hits[k];
            After(packets, hits, k + 1, st)
            == Assembly(Concat(packets[h.packet], 0, h.segment + 1), h.segment, h.packet % 16)
  {
    hide IsStream;
    var h := hits[k];
    var p := packets[h.packet];
    CounterOf(packets, h);
    if h.segment == 0 {
      assert Concat(p, 0, 0) == [];
    } else {
      BuildsUp(packets, hits, k - 1, st);
      assert Concat(p, 0, h.segment + 1) == Concat(p, 0, h.segment) + p[h.segment].payload;
    }
  }

  // A packet is delivered whole exactly when all of its segments arrived.
  lemma WholeIffFullyReceived(packets: seq<seq<Segment>>, hits: seq<Hit>, k: nat, st: Assembly, base: nat)
    requires IsStream(packets) && InOrder(packets, hits) && Near(hits, base) && Fresh(st, base) && k < |hits|
    ensures var p := packets[hits[k].packet];
            DeliveredAt(packets, hits, k, st) == Some(Concat(p, 0, |p|)) <==> FullyReceived(packets, hits, k)
  {
    hide Near, Fresh, Concat, Follows, IsStream;
    if FullyReceived(packets, hits, k) {
      ArrivedIsUnbroken(packets, hits, k);
      WholeDelivered(packets, hits, k, st);
    }
    if DeliveredAt(packets, hits, k, st) == Some(Concat(packets[hits[k].packet], 0, |packets[hits[k].packet]|)) {
      DeliveredWhole(packets, hits, k, st, base);
    }
  }

  lemma DeliveredWhole(packets: seq<seq<Segment>>, hits: seq<Hit>, k: nat, st: Assembly, base: nat)
    requires IsStream(packets) && InOrder(packets, hits) && Near(hits, base) && Fresh(st, base) && k < |hits|
    requires var p := packets[hits[k].packet]; DeliveredAt(packets, hits, k, st) == Some(Concat(p, 0, |p|))
    ensures FullyReceived(packets, hits, k)
  {
    hide Near, Fresh, Concat, Follows, Deliver, After;
    var p := packets[hits[k].packet];
    assert p in packets;
    var from := NeverMixed(packets, hits, k, st, base);
    UnbrokenStart(hits, k, from);
    ConcatSplit(p, from, |p|);
    ConcatLength(p, 0, from);
    assert from == 0;
    forall s | 0 <= s < |p| ensures Arrived(hits, k + 1, Hit(hits[k].packet, s)) {
      UnbrokenIsArrived(hits, k, s);
    }
  }

  lemma WholeDelivered(packets: seq<seq<Segment>>, hits: seq<Hit>, k: nat, st: Assembly)
    requires IsStream(packets) && AllInRange(packets, hits) && k < |hits| && Unbroken(hits, k, 0)
    requires hits[k].segment == |packets[hits[k].packet]| - 1
    ensures var p := packets[hits[k].packet]; DeliveredAt(packets, hits, k, st) == Some(Concat(p, 0, |p|))
  {
    var p := packets[hits[k].packet];
    assert p in packets;
    BuildsUp(packets, hits, k, st);
    ConcatLength(p, 0, |p|);
  }

  // The last segment number before hit k; prev is what the receiver started with.
  function PrevAt(hits: seq<Hit>, k: nat, prev: nat): nat
    requires k <= |hits|
  {
    if k == 0 then prev else hits[k - 1].segment
  }

  // Hit k is the last segment of its packet, and either its only one, or the number it follows
  // was the last received and the last first segment was of the same packet.
  predicate Delivers(packets: seq<seq<Segment>>, hits: seq<Hit>, k: nat, prev: nat, base: nat)
    requires AllInRange(packets, hits) && k < |hits|
  {
    var h := hits[k];
    && h.segment == |packets[h.packet]| - 1
    && (h.segment == 0 || (h.segment == PrevAt(hits, k, prev) + 1 && LastFirst(hits, k, base) == h.packet))
  }

  // Something is delivered exactly then.
  lemma DeliversExactly(packets: seq<seq<Segment>>, hits: seq<Hit>, k: nat, st: Assembly, base: nat)
    requires IsStream(packets) && InOrder(packets, hits) && Near(hits, base) && Fresh(st, base) && k < |hits|
    ensures DeliveredAt(packets, hits, k, st).Some? <==> Delivers(packets, hits, k, st.prev, base)
  {
    hide Concat, Unbroken;
    var h := hits[k];
    var from := AssemblyInvariant(packets, hits, k, st, base);
    CounterOf(packets, h);
    LastFirstBound(packets, hits, k, base);
    assert packets[h.packet] in packets;
    if h.packet % 16 == LastFirst(hits, k, base) % 16 {
      SameCounter(h.packet, LastFirst(hits, k, base));
    }
  }

  // And it is a truncated packet exactly when one of its segments has not arrived.
  lemma TruncatedExactly(packets: seq<seq<Segment>>, hits: seq<Hit>, k: nat, st: Assembly, base: nat)
    requires IsStream(packets) && InOrder(packets, hits) && Near(hits, base) && Fresh(st, base) && k < |hits|
    ensures var p, out := packets[hits[k].packet], DeliveredAt(packets, hits, k, st);
            out.Some? && out.value != Concat(p, 0, |p|)
            <==> Delivers(packets, hits, k, st.prev, base) && !FullyReceived(packets, hits, k)
  {
    hide Delivers, FullyReceived, DeliveredAt, Near, Fresh, Concat;
    DeliversExactly(packets, hits, k, st, base);
    WholeIffFullyReceived(packets, hits, k, st, base);
  }

  // ----- the 1600-byte buffer -----

  // Its first 14 bytes are the Ethernet header.
  predicate FitsRow(st: Assembly) {
    14 + |st.buf| <= 1600
  }

  // A row never holds more than a full segment for every number up to the last one.
  predicate Bounded(st: Assembly) {
    |st.buf| <= 252 * (st.prev + 1)
  }

  // The successor of the last segment, with a number that no packet of this sender reaches and
  // more bytes than there is room for.
  predicate Overfills(st: Assembly, pkt: nat, seg: Segment) {
    seg.counter > 5 && seg.counter == st.prev + 1 && pkt == st.cur && 14 + |st.buf| + |seg.payload| > 1600
  }

  // Whatever is received, in whatever order: the row runs over exactly by such a segment.
  lemma AbsorbFits(st: Assembly, pkt: nat, seg: Segment)
    requires Bounded(st) && FitsRow(st) && |seg.payload| <= 252
    ensures Bounded(Absorb(st, pkt, seg))
    ensures FitsRow(Absorb(st, pkt, seg)) <==> !Overfills(st, pkt, seg)
  {
    var after := Absorb(st, pkt, seg);
    assert after.prev == seg.counter;
    assert after.buf == seg.payload || after.buf == [] || |after.buf| <= 252 * seg.counter + 252;
  }

  // ----- truncated packets -----

  // A receiver just started that misses the first of two segments delivers the second alone.
  lemma FirstSegmentLost(p: seq<Segment>)
    requires IsPacket(p) && |p| == 2
    ensures InOrder([p], [Hit(0, 1)]) && Near([Hit(0, 1)], 0)
    ensures DeliveredAt([p], [Hit(0, 1)], 0, Assembly([], 0, 0)) == Some(p[1].payload)
  {
    var hits := [Hit(0, 1)];
    FirstPacketNear(hits);
    assert After([p], hits, 0, Assembly([], 0, 0)) == Assembly([], 0, 0);
    assert After([p], hits, 1, Assembly([], 0, 0)) == Assembly(p[1].payload, 1, 0);
  }

  // Losing the second of four segments: the fourth, alone, is delivered as if it were a packet.
  lemma TruncatedDelivery(p: seq<Segment>)
    requires IsPacket(p) && |p| == 4
    ensures var hits := [Hit(0, 0), Hit(0, 2), Hit(0, 3)];
            && InOrder([p], hits) && Near(hits, 0)
            && DeliveredAt([p], hits, 2, Assembly([], 0, 0)) == Some(p[3].payload)
  {
    var hits := [Hit(0, 0), Hit(0, 2), Hit(0, 3)];
    FirstPacketNear(hits);
    AfterGap([p], hits, Assembly([], 0, 0));
  }

  lemma FirstPacketNear(hits: seq<Hit>)
    requires forall k | 0 <= k < |hits| :: hits[k].packet == 0
    ensures Near(hits, 0)
  {
    forall k | 0 <= k < |hits| ensures NearAt(hits, k, 0) {
      AtLeast(hits, k);
    }
  }

  lemma {:induction false} AtLeast(hits: seq<Hit>, k: nat)
    requires k <= |hits| && forall i | 0 <= i < |hits| :: hits[i].packet == 0
    ensures LastFirst(hits, k, 0) == 0
  {
    if k > 0 {
      AtLeast(hits, k - 1);
    }
  }

  lemma AfterGap(packets: seq<seq<Segment>>, hits: seq<Hit>, st: Assembly)
    requires |packets| == 1 && IsPacket(packets[0]) && |packets[0]| == 4 && st == Assembly([], 0, 0)
    requires hits == [Hit(0, 0), Hit(0, 2), Hit(0, 3)]
    ensures AllInRange(packets, hits) && DeliveredAt(packets, hits, 2, st) == Some(packets[0][3].payload)
  {
    var p := packets[0];
    assert AllInRange(packets, hits);
    assert After(packets, hits, 0, st) == st;
    assert After(packets, hits, 1, st) == Assembly(p[0].payload, 0, 0);
    assert After(packets, hits, 2, st) == Assembly([], 2, 0);
    assert After(packets, hits, 3, st) == Assembly(p[3].payload, 3, 0);
  }
}
