// When a client sends: on the starts of frame it hears, and once more when it hears none
// (source/TDMA.cpp:173-209, 469; source/SI4463.cpp:977).
module Bursts {
  import opened Bytes
  import opened Tdma
  import opened TdmaByte
  import opened Schedule
  import opened AllocFrame

  // ----- one client -----

  const TIMER: nat := 0x100_0000
  const CLOCK: nat := 0x1_0000_0000

  // What it learnt, the frame number, how many bursts ago, whether one is under way, when the
  // master's frame began, and when to send.
  datatype Station = Station(plan: Slave, frameNb: nat, age: nat, pending: bool, lastTop: nat, nextTx: nat)

  // A burst is prepared in a frame the client is selected for, at its offset behind the top.
  function Prepare(s: Station, top: nat): Station {
    if Selected(s.frameNb, s.plan) then
      s.(age := s.age + 1, pending := true, nextTx := (top + s.plan.offsetTime) % TIMER)
    else s
  }

  // A frame of the master has been received.
  function HearByte(s: Station, b: byte, on: bool, time: nat): Station {
    if !ParityBitCheck(b) then s
    else if !(IsSynchro(b) && FromMaster(b)) then s.(frameNb := b % 32)
    else
      var heard := s.(frameNb := b % 32, lastTop := time);
      if s.age < 2 && on then Prepare(heard, time) else heard
  }

  // The last start of frame is between 8 and 10 ms too old.
  predicate Late(s: Station, now: nat, frame: nat) {
    frame + 8000 < (now - s.lastTop) % CLOCK < frame + 10000
  }

  // TDMA_slave_timeout, called again and again by the main loop
  function Poll(s: Station, now: nat, frame: nat, on: bool): Station {
    if Late(s, now, frame) && s.age < 2 && !s.pending && on then
      Prepare(s.(frameNb := (s.frameNb + 1) % 32), s.lastTop + frame)
    else s
  }

  datatype Event =
    | Allocation(plan: Slave)
    | Hear(b: byte, on: bool, time: nat)
    | Timeout(now: nat, frame: nat, on: bool)
    | Start

  function Apply(s: Station, e: Event): Station {
    match e
    case Allocation(plan) => s.(plan := plan, age := 0)
    case Hear(b, on, time) => HearByte(s, b, on, time)
    case Timeout(now, frame, on) => Poll(s, now, frame, on)
    case Start => s.(pending := false)
  }

  const INITIAL := Station(Slave(0, 0, 0, 0, false), 0, 2, false, 0, 0)

  function Run(events: seq<Event>): Station {
    if events == [] then INITIAL else Apply(Run(events[..|events| - 1]), events[|events| - 1])
  }

  // The event makes the client prepare a burst: a start of frame, or a poll after a missed one, in
  // a frame it is selected for.
  predicate Sends(s: Station, e: Event) {
    match e
    case Hear(b, on, time) =>
      ParityBitCheck(b) && IsSynchro(b) && FromMaster(b) && s.age < 2 && on && Selected(b % 32, s.plan)
    case Timeout(now, frame, on) =>
      Late(s, now, frame) && s.age < 2 && !s.pending && on && Selected((s.frameNb + 1) % 32, s.plan)
    case _ => false
  }

  // Bursts prepared since the last allocation.
  function SinceAllocation(events: seq<Event>): nat {
    if events == [] || events[|events| - 1].Allocation? then 0
    else
      var before := events[..|events| - 1];
      SinceAllocation(before) + if Sends(Run(before), events[|events| - 1]) then 1 else 0
  }

  predicate EverAllocated(events: seq<Event>) {
    exists i | 0 <= i < |events| :: events[i].Allocation?
  }

  // Without an allocation a client never sends, and never more than twice on the same one.
  lemma {:induction false} AtMostTwoBursts(events: seq<Event>)
    ensures SinceAllocation(events) <= if EverAllocated(events) then 2 else 0
    ensures Run(events).age == if EverAllocated(events) then SinceAllocation(events) else 2
  {
    if events != [] {
      var n := |events| - 1;
      AtMostTwoBursts(events[..n]);
      assert EverAllocated(events) <==> EverAllocated(events[..n]) || events[n].Allocation? by {
        assert forall i | 0 <= i < n :: events[..n][i] == events[i];
      }
    }
  }

  // A burst prepared on a start of frame is one the schedule expects in that frame, at the offset
  // the master planned.
  lemma HeardBurstOnSchedule(s: Station, b: byte, on: bool, time: nat, p: Params, a: Share, offset: nat, i: nat,
                             frameNb: nat)
    requires Sized(a) && i < CLIENTS && Active(a, i)
    requires s.plan == Planned(p, offset, Length(a, i), if a.isFast[i] then 0 else i % 4, if a.isFast[i] then 0 else 3)
    requires b == ElaborateByte(true, frameNb, true)
    ensures Sends(s, Hear(b, on, time)) <==> on && s.age < 2 && OnAir(a, i, frameNb)
    ensures Sends(s, Hear(b, on, time)) ==> HearByte(s, b, on, time).nextTx == (time + 10 * offset) % 0x100_0000
  {
    hide ElaborateByte, ParityBitCheck, AddParity;
    ByteRoundTrip(true, frameNb, true);
    NextFrame(frameNb);
    SelectionMatchesSchedule(p, a, offset, i, frameNb % 32);
  }

  // A byte without the start mark brings the frame number and nothing else, one whose parity is wrong
  // nothing at all. Once a burst is sent the client is free for the next one.
  lemma OtherBytes(s: Station, b: byte, master: bool, value: nat, on: bool, time: nat)
    ensures !ParityBitCheck(b) ==> HearByte(s, b, on, time) == s
    ensures HearByte(s, ElaborateByte(master, value, false), on, time)
         == s.(frameNb := if master then value % 32 else if value > 30 then 30 else value)
    ensures HearByte(s, ElaborateByte(false, value, true), on, time)
         == s.(frameNb := if value > 30 then 30 else value)
    ensures Apply(s, Start) == s.(pending := false)
  {
    hide ElaborateByte, ParityBitCheck;
    ByteRoundTrip(master, value, false);
    ByteRoundTrip(false, value, true);
  }

  // A client that has heard the start of frame f at time top and misses the next one does at the
  // right time exactly what it would have done had it heard that one a frame later, and at any
  // other time nothing.
  lemma MissedStartBridged(s: Station, f: nat, on: bool, top: nat, now: nat, frame: nat)
    requires var heard := HearByte(s, ElaborateByte(true, f, true), on, top); heard.age < 2 && !heard.pending
    ensures var heard := HearByte(s, ElaborateByte(true, f, true), on, top);
            && heard.lastTop == top && heard.frameNb == f % 32
            && Poll(heard, now, frame, true)
               == if frame + 8000 < (now - top) % 0x1_0000_0000 < frame + 10000
                  then HearByte(heard, ElaborateByte(true, f + 1, true), true, top + frame).(lastTop := top)
                  else heard
  {
    hide ElaborateByte, ParityBitCheck, AddParity, Selected;
    ByteRoundTrip(true, f, true);
    ByteRoundTrip(true, f + 1, true);
    NextNumber(f);
  }

  lemma NextNumber(f: nat)
    ensures (f % 32 + 1) % 32 == (f + 1) % 32
  {
    if f % 32 == 31 {
      assert f + 1 == 32 * (f / 32 + 1);
    } else {
      assert f + 1 == 32 * (f / 32) + (f % 32 + 1);
    }
  }

  // ----- polling while no start of frame is heard -----

  // Polls at the given times, all inside the window.
  function Polls(s: Station, nows: seq<nat>, frame: nat): Station
    decreases |nows|
  {
    if nows == [] then s else Polls(Poll(s, nows[0], frame, true), nows[1..], frame)
  }

  predicate InWindow(s: Station, nows: seq<nat>, frame: nat) {
    forall i | 0 <= i < |nows| :: Late(s, nows[i], frame)
  }

  // The frame number that the first poll looks at.
  function Guess(s: Station): nat {
    (s.frameNb + 1) % 32
  }

  lemma PollOnce(s: Station, nows: seq<nat>, frame: nat)
    requires nows != [] && InWindow(s, nows, frame) && s.age < 2 && !s.pending
    ensures var next := Poll(s, nows[0], frame, true);
            && InWindow(next, nows[1..], frame) && next.plan == s.plan && next.frameNb == Guess(s)
            && (next.pending <==> Selected(Guess(s), s.plan)) && (!next.pending ==> next.age == s.age)
  {
    var next := Poll(s, nows[0], frame, true);
    forall i | 0 <= i < |nows| - 1 ensures Late(next, nows[1..][i], frame) {
      assert Late(s, nows[i + 1], frame);
    }
  }

  lemma {:induction false} PendingStays(s: Station, nows: seq<nat>, frame: nat)
    requires s.pending
    ensures Polls(s, nows, frame) == s
    decreases |nows|
  {
    if nows != [] {
      PendingStays(s, nows[1..], frame);
    }
  }

  // How far the next frame of a slow client is from the last one heard.
  function Distance(s: Station): nat {
    (s.plan.multiId % 4 + 4 - (s.frameNb + 1) % 4) % 4 + 1
  }

  // For a slow client the polls of one window go on counting frames until they hit its own:
  // it sends in the very next frame as soon as it has been polled often enough.
  lemma {:induction false} SlowPolls(s: Station, nows: seq<nat>, frame: nat)
    requires s.plan.mask == 3 && s.age < 2 && !s.pending && InWindow(s, nows, frame)
    ensures Polls(s, nows, frame).pending <==> |nows| >= Distance(s)
    decreases |nows|
  {
    hide Late, Distance, Selected;
    DistanceStep(s);
    if nows != [] {
      PollOnce(s, nows, frame);
      var next := Poll(s, nows[0], frame, true);
      if next.pending {
        PendingStays(next, nows[1..], frame);
      } else {
        SlowPolls(next, nows[1..], frame);
        DistanceNext(s, next);
      }
    }
  }

  lemma DistanceStep(s: Station)
    requires s.plan.mask == 3
    ensures 1 <= Distance(s) <= 4 && (Distance(s) == 1 <==> Selected(Guess(s), s.plan))
  {
    NextFrame(s.frameNb + 1);
  }

  lemma DistanceNext(s: Station, next: Station)
    requires s.plan.mask == 3 && next.plan == s.plan && next.frameNb == Guess(s) && Distance(s) > 1
    ensures Distance(next) == Distance(s) - 1
  {
    NextFrame(s.frameNb + 1);
  }

  lemma NextFrame(f: nat)
    ensures f % 32 % 4 == f % 4
    ensures (f % 32 + 1) % 4 == if f % 4 == 3 then 0 else f % 4 + 1
  {
    OfFour(f / 4, f % 4);
    OfFour(8 * (f / 32) + f % 32 / 4, f % 32 % 4);
    OfFour(f % 32 / 4, f % 32 % 4 + 1);
  }

  lemma OfFour(k: nat, s: nat)
    requires s <= 4
    ensures (4 * k + s) % 4 == if s == 4 then 0 else s
  {}

  // Missing the start of the next frame keeps a slow client on schedule exactly when its own frame
  // comes next or the polls end before they reach it. A fast client is always on schedule.
  lemma TimeoutOnSchedule(s: Station, nows: seq<nat>, frame: nat)
    requires s.age < 2 && !s.pending && nows != [] && InWindow(s, nows, frame)
    ensures s.plan.mask == 3 ==>
              ((Polls(s, nows, frame).pending ==> Selected(Guess(s), s.plan))
               <==> (Distance(s) == 1 || |nows| < Distance(s)))
    ensures s.plan.mask == 0 ==> Polls(s, nows, frame).pending && Selected(Guess(s), s.plan)
  {
    hide Late, Distance;
    if s.plan.mask == 3 {
      SlowPolls(s, nows, frame);
      DistanceStep(s);
    } else if s.plan.mask == 0 {
      PollOnce(s, nows, frame);
      PendingStays(Poll(s, nows[0], frame, true), nows[1..], frame);
    }
  }

  // Clients 1 and 2 are slow and share a slow slot. Both heard the start of frame 0 at time 0;
  // client 2 misses that of frame 1 and is polled twice: both prepare a burst for frame 1.
  lemma TimeoutCollides(p: Params)
    requires Known(p)
    ensures var one := Station(Planned(p, 100, 1, 1, 3), 0, 0, false, 0, 0);
            var two := Station(Planned(p, 100, 1, 2, 3), 0, 0, false, 0, 0);
            && HearByte(one, ElaborateByte(true, 1, true), true, p.frame).pending
            && Polls(two, [p.frame + 8001, p.frame + 8002], p.frame).pending && !Selected(1, two.plan)
  {
    hide ElaborateByte, ParityBitCheck, Late;
    ByteRoundTrip(true, 1, true);
    PolledTwice(p, Station(Planned(p, 100, 1, 2, 3), 0, 0, false, 0, 0));
  }

  lemma PolledTwice(p: Params, two: Station)
    requires Known(p) && two == Station(Planned(p, 100, 1, 2, 3), 0, 0, false, 0, 0)
    ensures Polls(two, [p.frame + 8001, p.frame + 8002], p.frame).pending
  {
    hide Polls, Selected;
    var nows := [p.frame + 8001, p.frame + 8002];
    assert Distance(two) == 2;
    assert Late(two, nows[0], p.frame) && Late(two, nows[1], p.frame);
    SlowPolls(two, nows, p.frame);
  }

  // ----- the methods -----

  class Client {
    var plan: Slave
    var frameNb: nat
    var age: nat
    var pending: bool
    var lastTop: nat
    var nextTx: nat

    constructor ()
      ensures View() == INITIAL
    {
      plan := INITIAL.plan;
      frameNb, age, pending, lastTop, nextTx := 0, 2, false, 0, 0;
    }

    ghost function View(): Station
      reads this
    {
      Station(plan, frameNb, age, pending, lastTop, nextTx)
    }

    // TDMA_byte_RX_interp of a client
    method ByteRxInterp(tdma: byte, on: bool, rxTime: nat)
      modifies `frameNb, `age, `pending, `lastTop, `nextTx
      ensures View() == HearByte(old(View()), tdma, on, rxTime)
    {
      var synchro := tdma as int / SYNCHRO % 2;
      var isDownlink := tdma as int / DOWNLINK % 2;
      if ParityBitCheck(tdma) {
        frameNb := tdma % 32;
        if synchro == 1 && isDownlink == 1 {
          lastTop := rxTime;
          if age < 2 && on {
            if Selected(frameNb, plan) {
              nextTx := (rxTime + plan.offsetTime) % TIMER;
              age := age + 1;
              pending := true;
            }
          }
        }
      }
    }

    // TDMA_slave_timeout
    method SlaveTimeout(now: nat, frameDuration: nat, on: bool)
      modifies `frameNb, `age, `pending, `nextTx
      ensures View() == Poll(old(View()), now, frameDuration, on)
    {
      var masterTopAge := (now - lastTop) % CLOCK;
      if masterTopAge > frameDuration + 8000 && masterTopAge < frameDuration + 10000 {
        if age < 2 && !pending && on {
          frameNb := (frameNb + 1) % 32;
          if Selected(frameNb, plan) {
            nextTx := (lastTop + frameDuration + plan.offsetTime) % TIMER;
            age := age + 1;
            pending := true;
          }
        }
      }
    }
  }
}
