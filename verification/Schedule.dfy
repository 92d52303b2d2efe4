// From slots to transmission times, for every modulation of the modem
// (source/TDMA.cpp:304-344; source/SI4463.cpp:154-338).
module Schedule {
  import opened Tdma

  // Durations in microseconds.
  datatype Params = Params(frame: nat, slot: nat, reduced: nat, margin: nat, tr: nat, ta: nat)

  const M20 := Params(560000, 31600, 12700, 300, 1300, 2000)
  const M11 := Params(537000, 30250, 11700, 300, 1300, 2000)
  const M21 := Params(294500, 16300, 7050, 300, 1300, 2000)
  const M12 := Params(312000, 17300, 7150, 300, 1300, 2000)
  const M22 := Params(176000, 9480, 4330, 300, 1300, 2000)
  const M13 := Params(197000, 10720, 4540, 300, 1300, 2000)
  const M23 := Params(117000, 6090, 3000, 300, 1300, 2000)
  const M14 := Params(130000, 6840, 3130, 300, 1300, 2000)
  const M24 := Params(81300, 4060, 2210, 300, 1300, 2000)

  predicate Known(p: Params) {
    p == M20 || p == M11 || p == M21 || p == M12 || p == M22 || p == M13 || p == M23 || p == M14 || p == M24
  }

  // One slot and the margin behind it.
  function Unit(p: Params): nat { p.slot + p.margin }

  // time_max_TX_burst of the master and of a client with n slots.
  function MasterBurst(p: Params, n: nat): int {
    (p.reduced + p.margin) + n * p.slot + (n - 1) * p.margin
  }

  function ClientBurst(p: Params, n: nat): int {
    n * p.slot + (n - 1) * p.margin
  }

  function FirstStart(p: Params, a: Share): int {
    MasterBurst(p, a.master) + p.margin + p.tr + p.ta
  }

  predicate Active(a: Share, i: nat)
    requires Sized(a) && i < CLIENTS
  {
    a.status[i]
  }

  function Length(a: Share, i: nat): nat
    requires Sized(a) && i < CLIENTS
  {
    if a.isFast[i] then a.slots[i] else 1
  }

  // Planned start of client i, measured from the master's own start.
  function Start(p: Params, a: Share, i: nat): int
    requires Sized(a) && i < CLIENTS
  {
    if a.isFast[i] then FirstStart(p, a) + Held(a.status, a.isFast, a.slots, i) * Unit(p)
    else if i < 4 then FirstStart(p, a) + Held(a.status, a.isFast, a.slots, CLIENTS) * Unit(p)
    else FirstStart(p, a) + Held(a.status, a.isFast, a.slots, CLIENTS) * Unit(p) + Unit(p)
  }

  // Division of C, towards zero.
  function TruncDiv(x: int, d: nat): int
    requires d > 0
  {
    if x >= 0 then x / d else -((-x) / d)
  }

  predicate InRange(ta: int) { -2000 < ta < 20000 }

  // Timing advance in offset units; out of range it is ignored.
  function Advance(ta: int): int {
    if InRange(ta) then TruncDiv(ta, 100) else 0
  }

  // The advance is the whole units of 10 microseconds in a round trip given in tenths of one; round
  // trips outside -200 to 2000 microseconds are ignored.
  lemma AdvanceSteps(ta: int)
    ensures 0 <= ta < 20000 ==> 100 * Advance(ta) <= ta < 100 * Advance(ta) + 100
    ensures -2000 < ta <= 0 ==> 100 * Advance(ta) - 100 < ta <= 100 * Advance(ta)
    ensures ta <= -2000 || ta >= 20000 ==> Advance(ta) == 0
  {}

  // TDMA_table_offset, in units of 10 microseconds.
  function Offset(p: Params, a: Share, ta: int, i: nat): int
    requires Sized(a) && i < CLIENTS
  {
    Start(p, a, i) / 10 - Advance(ta)
  }

  function DiscoveryOffset(p: Params, a: Share): int
    requires Sized(a)
  {
    (FirstStart(p, a) + Held(a.status, a.isFast, a.slots, CLIENTS) * Unit(p) + Unit(p)) / 10
  }

  // ----- the loops -----

  // Offsets of the fast clients, in the order of the table.
  method FastTimings(p: Params, a: Share, tas: seq<int>, before: seq<int>) returns (offset: seq<int>, at: int)
    requires Sized(a) && |tas| == |before| == CLIENTS
    ensures |offset| == CLIENTS && at == FirstStart(p, a) + Held(a.status, a.isFast, a.slots, CLIENTS) * Unit(p)
    ensures forall k | 0 <= k < CLIENTS ::
              offset[k] == if a.status[k] && a.isFast[k] then Offset(p, a, tas[k], k) else before[k]
  {
    at := MasterBurst(p, a.master) + p.margin + p.tr + p.ta;
    offset := before;
    for i := 0 to CLIENTS
      invariant |offset| == CLIENTS
      invariant at == FirstStart(p, a) + Held(a.status, a.isFast, a.slots, i) * Unit(p)
      invariant forall k | 0 <= k < CLIENTS ::
                  offset[k] == if k < i && a.status[k] && a.isFast[k] then Offset(p, a, tas[k], k) else before[k]
    {
      if a.status[i] && a.isFast[i] {
        offset := offset[i := if -2000 < tas[i] < 20000 then at / 10 - TruncDiv(tas[i], 100) else at / 10];
        Distribute(Held(a.status, a.isFast, a.slots, i), a.slots[i], Unit(p));
        at := at + a.slots[i] * (p.slot + p.margin);
      }
    }
  }

  // Offsets of the slow clients lo..hi-1, who share the slow slot at multiFrame.
  method SlowTimings(a: Share, tas: seq<int>, before: seq<int>, multiFrame: int, lo: nat, hi: nat)
    returns (offset: seq<int>)
    requires Sized(a) && |tas| == |before| == CLIENTS && lo <= hi <= CLIENTS
    ensures |offset| == CLIENTS
    ensures forall k | 0 <= k < CLIENTS ::
              offset[k]
              == if lo <= k < hi && a.status[k] && !a.isFast[k] then multiFrame - Advance(tas[k]) else before[k]
  {
    offset := before;
    for i := lo to hi
      invariant |offset| == CLIENTS
      invariant forall k | 0 <= k < CLIENTS ::
                  offset[k]
                  == if lo <= k < i && a.status[k] && !a.isFast[k] then multiFrame - Advance(tas[k]) else before[k]
    {
      if a.status[i] && !a.isFast[i] {
        offset := offset[i := if -2000 < tas[i] < 20000 then multiFrame - TruncDiv(tas[i], 100) else multiFrame];
      }
    }
  }

  // Section 6) of TDMA_master_allocation.
  method BuildTimings(p: Params, a: Share, tas: seq<int>, before: seq<int>)
    returns (offset: seq<int>, maxBurst: int, discovery: int)
    requires Sized(a) && |tas| == |before| == CLIENTS
    ensures |offset| == CLIENTS && maxBurst == MasterBurst(p, a.master) && discovery == DiscoveryOffset(p, a)
    ensures forall i | 0 <= i < CLIENTS ::
              offset[i] == if Active(a, i) then Offset(p, a, tas[i], i) else before[i]
  {
    maxBurst := (p.reduced + p.margin) + a.master * p.slot + (a.master - 1) * p.margin;
    var at: int;
    offset, at := FastTimings(p, a, tas, before);
    offset := SlowTimings(a, tas, offset, at / 10, 0, 4);
    at := at + p.slot + p.margin;
    discovery := at / 10;
    offset := SlowTimings(a, tas, offset, discovery, 4, CLIENTS);
  }

  lemma Distribute(x: nat, y: nat, u: nat)
    ensures (x + y) * u == x * u + y * u
  {}

  lemma Grows(x: nat, y: nat, u: nat)
    requires x <= y
    ensures x * u <= y * u
  {}

  // ----- who is on the air in which frame -----

  // Fast clients always; slow ones, and the discovery slot as number 3, once in four.
  predicate OnAir(a: Share, i: nat, frameNb: nat)
    requires Sized(a) && i < CLIENTS
  {
    Active(a, i) && (a.isFast[i] || frameNb % 4 == i % 4)
  }

  // A fast client is on the air in every frame, a slow one in exactly one of any four, the k-th, and
  // one that is not connected in none.
  lemma TurnsOnAir(a: Share, i: nat, frameNb: nat) returns (k: nat)
    requires Sized(a) && i < CLIENTS
    ensures a.status[i] && a.isFast[i] ==> OnAir(a, i, frameNb)
    ensures a.status[i] && !a.isFast[i] ==>
              && (OnAir(a, i, frameNb) <==> k == 0) && (OnAir(a, i, frameNb + 1) <==> k == 1)
              && (OnAir(a, i, frameNb + 2) <==> k == 2) && (OnAir(a, i, frameNb + 3) <==> k == 3) && k < 4
    ensures !a.status[i] ==> !OnAir(a, i, frameNb)
  {
    k := (i % 4 + 4 - frameNb % 4) % 4;
    NextOfFour(frameNb);
    NextOfFour(frameNb + 1);
    NextOfFour(frameNb + 2);
  }

  lemma NextOfFour(f: nat)
    ensures (f + 1) % 4 == if f % 4 == 3 then 0 else f % 4 + 1
  {
    assert f == 4 * (f / 4) + f % 4;
  }

  // Two slow clients never share a slow slot in the same frame, and none shares the
  // discovery slot.
  lemma SlowSlotExclusive(a: Share, i: nat, j: nat, frameNb: nat)
    requires Sized(a) && i < j < CLIENTS && !a.isFast[i] && !a.isFast[j]
    requires OnAir(a, i, frameNb) && OnAir(a, j, frameNb)
    ensures i < 4 <= j
  {}

  lemma DiscoveryExclusive(a: Share, i: nat, frameNb: nat)
    requires Sized(a) && i < CLIENTS && !a.isFast[i] && OnAir(a, i, frameNb) && frameNb % 4 == 3
    ensures i == 3
  {}

  lemma {:induction false} HeldMonotone(a: Share, i: nat, j: nat)
    requires Sized(a) && i < j <= CLIENTS
    ensures Held(a.status, a.isFast, a.slots, j)
         >= Held(a.status, a.isFast, a.slots, i) + (if Shares(a.status, a.isFast, i) then a.slots[i] else 0)
    decreases j
  {
    if i + 1 < j {
      HeldMonotone(a, i, j - 1);
    }
  }

  // Planned windows of two stations on the air follow each other.
  predicate Precedes(p: Params, a: Share, i: nat, j: nat)
    requires Sized(a) && i < CLIENTS && j < CLIENTS
  {
    Start(p, a, j) >= Start(p, a, i) + Length(a, i) * Unit(p)
  }

  lemma WindowsOrdered(p: Params, a: Share, i: nat, j: nat, frameNb: nat)
    requires Sized(a) && i < j < CLIENTS && OnAir(a, i, frameNb) && OnAir(a, j, frameNb)
    ensures Precedes(p, a, i, j) || Precedes(p, a, j, i)
  {
    var held := (n: nat) requires n <= CLIENTS => Held(a.status, a.isFast, a.slots, n);
    var u := Unit(p);
    if a.isFast[i] {
      var n := if a.isFast[j] then j else CLIENTS;
      HeldMonotone(a, i, n);
      Distribute(held(i), a.slots[i], u);
      Grows(held(i) + a.slots[i], held(n), u);
    } else if a.isFast[j] {
      HeldMonotone(a, j, CLIENTS);
      Distribute(held(j), a.slots[j], u);
      Grows(held(j) + a.slots[j], held(CLIENTS), u);
    } else {
      SlowSlotExclusive(a, i, j, frameNb);
    }
  }

  // ----- arrival at the master -----

  // In tenths of a microsecond. The timing advance table holds ten times the round trip,
  // that is exactly these units.
  function Arrival(p: Params, a: Share, ta: int, i: nat): int
    requires Sized(a) && i < CLIENTS
  {
    100 * Offset(p, a, ta, i) + ta
  }

  function Departure(p: Params, a: Share, ta: int, i: nat): int
    requires Sized(a) && i < CLIENTS
  {
    Arrival(p, a, ta, i) + 10 * ClientBurst(p, Length(a, i))
  }

  lemma ArrivalJitter(p: Params, a: Share, ta: int, i: nat)
    requires Sized(a) && i < CLIENTS && InRange(ta)
    ensures 10 * Start(p, a, i) - 189 <= Arrival(p, a, ta, i) <= 10 * Start(p, a, i) + 99
  {
    var s := Start(p, a, i);
    assert 10 * s - 90 <= 100 * (s / 10) <= 10 * s;
    assert -99 <= ta - 100 * TruncDiv(ta, 100) <= 99;
  }

  lemma BurstInUnits(p: Params, n: nat)
    ensures ClientBurst(p, n) == n * Unit(p) - p.margin
    ensures MasterBurst(p, n) == p.reduced + n * Unit(p)
  {}

  // Uplink windows never overlap at the master: at least the margin less 28.8
  // microseconds lies between any two of them.
  lemma UplinkWindowsDisjoint(p: Params, a: Share, tas: seq<int>, i: nat, j: nat, frameNb: nat)
    requires Sized(a) && |tas| == CLIENTS && i < j < CLIENTS
    requires OnAir(a, i, frameNb) && OnAir(a, j, frameNb) && InRange(tas[i]) && InRange(tas[j])
    ensures || Arrival(p, a, tas[j], j) - Departure(p, a, tas[i], i) >= 10 * p.margin - 288
            || Arrival(p, a, tas[i], i) - Departure(p, a, tas[j], j) >= 10 * p.margin - 288
  {
    WindowsOrdered(p, a, i, j, frameNb);
    ArrivalJitter(p, a, tas[i], i);
    ArrivalJitter(p, a, tas[j], j);
    BurstInUnits(p, Length(a, i));
    BurstInUnits(p, Length(a, j));
  }

  // ----- the fifteen slots fit the frame -----

  // All windows in terms of the slots given away before them.
  function Rank(a: Share, i: nat): nat
    requires Sized(a) && i < CLIENTS
  {
    if a.isFast[i] then a.master + Held(a.status, a.isFast, a.slots, i)
    else a.master + Held(a.status, a.isFast, a.slots, CLIENTS) + (if i < 4 then 0 else 1)
  }

  lemma StartInUnits(p: Params, a: Share, i: nat)
    requires Sized(a) && i < CLIENTS
    ensures Start(p, a, i) == p.reduced + p.margin + p.tr + p.ta + Rank(a, i) * Unit(p)
    ensures DiscoveryOffset(p, a)
         == (p.reduced + p.margin + p.tr + p.ta
             + (a.master + Held(a.status, a.isFast, a.slots, CLIENTS) + 1) * Unit(p)) / 10
  {
    BurstInUnits(p, a.master);
    Distribute(a.master, Held(a.status, a.isFast, a.slots, i), Unit(p));
    Distribute(a.master, Held(a.status, a.isFast, a.slots, CLIENTS), Unit(p));
    Distribute(a.master + Held(a.status, a.isFast, a.slots, CLIENTS), 1, Unit(p));
  }

  lemma RankBound(a: Share, i: nat)
    requires Sized(a) && Complete(a) && i < CLIENTS && Active(a, i)
    ensures 1 <= Rank(a, i) && Rank(a, i) + Length(a, i) <= 17
  {
    if a.isFast[i] {
      HeldMonotone(a, i, CLIENTS);
    }
  }

  // Room for seventeen slots in a frame of less than 655 milliseconds.
  predicate Roomy(p: Params) {
    p.reduced + p.margin + p.tr + p.ta + 17 * Unit(p) + 10 <= p.frame < 655000 && p.ta == 2000
  }

  lemma SeventeenSlotsFit(p: Params)
    requires Known(p)
    ensures Roomy(p)
  {}

  // Every client's burst has reached the master before the frame is over, and its offset
  // is a 16-bit number.
  lemma WindowsFitFrame(p: Params, a: Share, ta: int, i: nat)
    requires Known(p) && Sized(a) && Complete(a) && i < CLIENTS && Active(a, i) && InRange(ta)
    ensures Departure(p, a, ta, i) <= 10 * p.frame
    ensures 0 <= Offset(p, a, ta, i) < 0x1_0000
  {
    SeventeenSlotsFit(p);
    StartInUnits(p, a, i);
    RankBound(a, i);
    ArrivalJitter(p, a, ta, i);
    RankFits(p, Rank(a, i), Length(a, i), Start(p, a, i), Arrival(p, a, ta, i), ta, Advance(ta));
  }

  lemma RankFits(p: Params, rank: nat, n: nat, start: int, arrival: int, ta: int, advance: int)
    requires Roomy(p) && rank + n <= 17 && start == p.reduced + p.margin + p.tr + p.ta + rank * Unit(p)
    requires 10 * start - 189 <= arrival <= 10 * start + 99 && arrival == 100 * (start / 10 - advance) + ta
    requires -19 <= advance <= 199
    ensures arrival + 10 * ClientBurst(p, n) <= 10 * p.frame
    ensures 0 <= start / 10 - advance < 0x1_0000
  {
    BurstInUnits(p, n);
    Distribute(rank, n, Unit(p));
    Grows(rank + n, 17, Unit(p));
    Grows(0, rank, Unit(p));
    Grows(0, n, Unit(p));
  }

  // ----- the discovery slot -----

  // The discovery station has no timing advance: its burst reaches the master late by the whole
  // round trip, in tenths of a microsecond.
  function DiscoveryArrival(p: Params, a: Share, delay: nat): int
    requires Sized(a)
  {
    100 * DiscoveryOffset(p, a) + delay
  }

  function DiscoveryDeparture(p: Params, a: Share, delay: nat): int
    requires Sized(a)
  {
    DiscoveryArrival(p, a, delay) + 10 * ClientBurst(p, 1)
  }

  // The longest round trip with which the discovery burst still ends inside the frame.
  function Slack(p: Params): int {
    10 * p.frame - 10 * p.slot - 100 * ((p.reduced + p.margin + p.tr + p.ta + 16 * Unit(p)) / 10)
  }

  lemma SlackValues()
    ensures Slack(M20) == 17000 && Slack(M11) == 26500 && Slack(M21) == 19500
    ensures Slack(M12) == 23500 && Slack(M22) == 21100 && Slack(M13) == 18200
    ensures Slack(M23) == 20700 && Slack(M14) == 21900 && Slack(M24) == 16700
  {}

  // It ends inside the frame exactly up to that round trip, and its offset always fits 16 bits.
  lemma DiscoveryFitsFrame(p: Params, a: Share, delay: nat)
    requires Known(p) && Sized(a) && Complete(a)
    ensures DiscoveryDeparture(p, a, delay) <= 10 * p.frame <==> delay <= Slack(p)
    ensures 0 <= DiscoveryOffset(p, a) < 0x1_0000
  {
    hide Known, Held;
    StartInUnits(p, a, 0);
    SeventeenSlotsFit(p);
    SlotInFrame(p, p.reduced + p.margin + p.tr + p.ta + 16 * Unit(p));
  }

  lemma SlotInFrame(p: Params, start: int)
    requires Roomy(p) && start == p.reduced + p.margin + p.tr + p.ta + 16 * Unit(p)
    ensures 0 <= start / 10 < 0x1_0000
  {
    assert 0 <= start <= p.frame;
  }

  // At the modulation with the shortest frame a round trip of 1999.9 microseconds, which the timing
  // advance of a connected client still covers, ends after the frame, whatever the share.
  lemma DiscoveryOverrunsFrame(a: Share)
    requires Sized(a) && Complete(a)
    ensures InRange(19999) && DiscoveryDeparture(M24, a, 19999) > 10 * M24.frame
  {
    SlackValues();
    DiscoveryFitsFrame(M24, a, 19999);
  }

  // However late, it arrives behind every client on the air in a discovery frame.
  lemma DiscoveryAfterClients(p: Params, a: Share, ta: int, i: nat, frameNb: nat, delay: nat)
    requires Sized(a) && i < CLIENTS && OnAir(a, i, frameNb) && frameNb % 4 == 3 && InRange(ta)
    ensures DiscoveryArrival(p, a, delay) - Departure(p, a, ta, i) >= 10 * p.margin - 189
  {
    var held := Held(a.status, a.isFast, a.slots, CLIENTS);
    ArrivalJitter(p, a, ta, i);
    BurstInUnits(p, Length(a, i));
    StartInUnits(p, a, i);
    if a.isFast[i] {
      HeldMonotone(a, i, CLIENTS);
    } else {
      DiscoveryExclusive(a, i, frameNb);
    }
    Distribute(Rank(a, i), Length(a, i), Unit(p));
    Grows(Rank(a, i) + Length(a, i), a.master + held + 1, Unit(p));
  }

  // Even with the largest advance a client starts more than the receive/transmit margin
  // after the end of the master's burst.
  lemma StartsAfterMaster(p: Params, a: Share, ta: int, i: nat)
    requires Known(p) && Sized(a) && Complete(a) && i < CLIENTS && Active(a, i)
    ensures 10 * Offset(p, a, ta, i) > MasterBurst(p, a.master) + p.tr
  {
    SeventeenSlotsFit(p);
    Grows(0, Held(a.status, a.isFast, a.slots, i), Unit(p));
    Grows(0, Held(a.status, a.isFast, a.slots, CLIENTS), Unit(p));
    assert Start(p, a, i) >= FirstStart(p, a);
    LateEnough(Start(p, a, i), MasterBurst(p, a.master), p, Advance(ta));
  }

  lemma LateEnough(start: int, burst: int, p: Params, advance: int)
    requires Known(p) && start >= burst + p.margin + p.tr + 2000 && advance <= 199
    ensures 10 * (start / 10 - advance) > burst + p.tr
  {}
}
