// The TDMA master's sharing of the 15 slots of a frame (source/TDMA.cpp:157-172, 227-303, 406-418).
module Tdma {
  import opened Bytes
  import opened TdmaByte
  import opened Uplink

  const CLIENTS: nat := 7
  const SLOTS: nat := 15

  // Active clients that take part in the sharing.
  predicate Shares(status: seq<bool>, isFast: seq<bool>, i: nat)
    requires i < |status| == |isFast|
  {
    status[i] && isFast[i]
  }

  // Slots held by the sharing clients among the first n.
  function Held(status: seq<bool>, isFast: seq<bool>, slots: seq<nat>, n: nat): nat
    requires n <= |status| == |isFast| == |slots|
  {
    if n == 0 then 0
    else Held(status, isFast, slots, n - 1) + (if Shares(status, isFast, n - 1) then slots[n - 1] else 0)
  }

  lemma {:induction false} HeldMore(status: seq<bool>, isFast: seq<bool>, slots: seq<nat>, i: nat, n: nat)
    requires i < |status| == |isFast| == |slots| && n <= |slots|
    ensures Held(status, isFast, slots[i := slots[i] + 1], n)
         == Held(status, isFast, slots, n) + (if i < n && Shares(status, isFast, i) then 1 else 0)
  {
    if n > 0 {
      HeldMore(status, isFast, slots, i, n - 1);
    }
  }

  // What a participant that declares a need is after: at least one slot in any case.
  function Wanted(need: nat): nat {
    if need > 0 then need else 1
  }

  datatype Share = Share(status: seq<bool>, isFast: seq<bool>, need: seq<nat>, masterNeed: nat,
                         slots: seq<nat>, master: nat)

  predicate Sized(a: Share) {
    |a.status| == |a.isFast| == |a.need| == |a.slots| == CLIENTS
  }

  // All fifteen slots are given away, at least one to everybody.
  predicate Complete(a: Share)
    requires Sized(a)
  {
    && a.master + Held(a.status, a.isFast, a.slots, CLIENTS) == SLOTS
    && a.master >= 1 && forall i | 0 <= i < CLIENTS && Shares(a.status, a.isFast, i) :: a.slots[i] >= 1
  }

  predicate NeedsMet(a: Share)
    requires Sized(a)
  {
    a.master >= a.masterNeed && forall i | 0 <= i < CLIENTS && Shares(a.status, a.isFast, i) :: a.slots[i] >= a.need[i]
  }

  predicate Surplus(a: Share)
    requires Sized(a)
  {
    a.master > Wanted(a.masterNeed)
    || exists i | 0 <= i < CLIENTS :: Shares(a.status, a.isFast, i) && a.slots[i] > Wanted(a.need[i])
  }

  function Sharers(status: seq<bool>, isFast: seq<bool>, n: nat): nat
    requires n <= |status| == |isFast|
  {
    if n == 0 then 0 else Sharers(status, isFast, n - 1) + if Shares(status, isFast, n - 1) then 1 else 0
  }

  // How often the master comes in so many rounds.
  function MasterTurns(status: seq<bool>, isFast: seq<bool>, rounds: nat): nat
    requires |status| == |isFast| == CLIENTS
  {
    if Sharers(status, isFast, CLIENTS) > 1 then 2 * rounds else rounds
  }

  // Nobody is far ahead of a client that is left short.
  predicate Fair(a: Share)
    requires Sized(a)
  {
    forall j | 0 <= j < CLIENTS && Shares(a.status, a.isFast, j) && a.slots[j] < a.need[j] ::
      && a.master <= MasterTurns(a.status, a.isFast, a.slots[j]) + 1
      && forall i | 0 <= i < CLIENTS && Shares(a.status, a.isFast, i) :: a.slots[i] <= a.slots[j] + 1
  }

  // A master left short has no less than any client, and twice as much where there are several.
  predicate MasterServed(a: Share)
    requires Sized(a)
  {
    a.master < a.masterNeed ==>
      forall i | 0 <= i < CLIENTS && Shares(a.status, a.isFast, i) ::
        if Sharers(a.status, a.isFast, CLIENTS) > 1 then 2 * a.slots[i] <= a.master + 1 else a.slots[i] <= a.master
  }

  // Of two clients the first one in the table is served first.
  predicate InTurn(a: Share)
    requires Sized(a)
  {
    forall i, j | 0 <= i < j < CLIENTS && Shares(a.status, a.isFast, i) && Shares(a.status, a.isFast, j) ::
      a.slots[i] < a.need[i] ==> a.slots[j] <= a.slots[i]
  }

  // What the participants hold beyond their needs goes round: the master first, then the clients.
  predicate Evenly(a: Share)
    requires Sized(a)
  {
    var x := a.master - Wanted(a.masterNeed);
    Surplus(a) ==>
      && (forall i | 0 <= i < CLIENTS && Shares(a.status, a.isFast, i) :: x - 1 <= a.slots[i] - Wanted(a.need[i]) <= x)
      && forall i, j | 0 <= i < j < CLIENTS && Shares(a.status, a.isFast, i) && Shares(a.status, a.isFast, j) ::
           a.slots[j] - Wanted(a.need[j]) <= a.slots[i] - Wanted(a.need[i])
  }

  // ----- the invariant of the first pass, after a number of full rounds -----

  // Client i, when its turn in round `rounds` (counted from zero) has or has not come.
  predicate InStep(a: Share, left: seq<nat>, rounds: nat, i: nat)
    requires Sized(a) && |left| == CLIENTS && i < CLIENTS
  {
    Shares(a.status, a.isFast, i) ==>
      && 1 <= a.slots[i] <= 1 + rounds
      && a.slots[i] + left[i] == Wanted(a.need[i])
      && (left[i] > 0 ==> a.slots[i] == 1 + rounds)
  }

  // The same at the end of a round that may have run out of slots.
  predicate Served(a: Share, left: seq<nat>, rounds: nat, given: nat, i: nat)
    requires Sized(a) && |left| == CLIENTS && i < CLIENTS
  {
    Shares(a.status, a.isFast, i) ==>
      && 1 <= a.slots[i] <= 1 + rounds
      && a.slots[i] + left[i] == Wanted(a.need[i])
      && (left[i] > 0 ==> a.slots[i] == 1 + rounds || (given == SLOTS && a.slots[i] == rounds))
  }

  // A client still short holds no less than those behind it; up to n in the round under way.
  predicate Ahead(a: Share, left: seq<nat>, n: nat)
    requires Sized(a) && |left| == CLIENTS && n <= CLIENTS
  {
    forall i, j | 0 <= i < n && i < j < CLIENTS && Shares(a.status, a.isFast, i) && Shares(a.status, a.isFast, j) ::
      left[i] > 0 ==> a.slots[j] <= a.slots[i]
  }

  // The master's share after a number of full rounds, when it is still short.
  predicate MasterAt(a: Share, left: nat, rounds: nat, given: nat)
    requires Sized(a)
  {
    var several := Sharers(a.status, a.isFast, CLIENTS) > 1;
    left > 0 ==>
      || a.master == 1 + (if several then 2 * rounds else rounds)
      || (given == SLOTS && several && a.master == 2 * rounds
          && forall i | 0 <= i < CLIENTS && Shares(a.status, a.isFast, i) :: a.slots[i] <= rounds)
  }

  class Master {
    // Client table, fed by the address manager, and the TDMA tables.
    var status: seq<bool>
    var isFast: seq<bool>
    var uplinkSt: seq<nat>
    var uplinkUsage: seq<nat>
    var up2date: seq<bool>
    var rxTime: seq<nat>
    var slots: seq<nat>
    var masterSlots: nat

    ghost predicate Valid()
      reads this
    {
      && |status| == |isFast| == |uplinkSt| == |uplinkUsage| == |up2date| == |rxTime| == |slots| == CLIENTS
      && forall i | 0 <= i < CLIENTS :: uplinkSt[i] <= 31
    }

    function View(masterNeed: nat): Share
      reads this
    {
      Share(status, isFast, uplinkSt, masterNeed, slots, masterSlots)
    }

    // TDMA_init_all
    constructor ()
      ensures Valid()
      ensures forall i | 0 <= i < CLIENTS :: uplinkSt[i] == 0 && uplinkUsage[i] == 32 && isFast[i] && !status[i]
    {
      status, isFast := seq(CLIENTS, i => false), seq(CLIENTS, i => true);
      uplinkSt, uplinkUsage := seq(CLIENTS, i => 0), seq(CLIENTS, i => 32);
      up2date, slots, masterSlots := seq(CLIENTS, i => false), seq(CLIENTS, i => 0), 0;
      rxTime := seq(CLIENTS, i => 0);
    }

    ghost function Client(i: nat): Uplink
      reads this
      requires Valid() && i < CLIENTS
    {
      Uplink(status[i], uplinkSt[i], uplinkUsage[i], isFast[i], up2date[i])
    }

    // TDMA_byte_RX_interp of the master
    method ByteRxInterp(tdma: byte, clientByte: byte, time: nat)
      requires Valid()
      modifies `isFast, `uplinkSt, `uplinkUsage, `up2date, `rxTime
      ensures Valid()
      ensures var heard := ParityBitCheck(tdma) && !FromMaster(tdma) && ParityBitCheck(clientByte);
              forall i | 0 <= i < CLIENTS ::
                && Client(i)
                   == (if heard && i == clientByte % 128 then Hear(old(Client(i)), tdma % 32) else old(Client(i)))
                && rxTime[i] == if heard && i == clientByte % 128 && IsSynchro(tdma) then time else old(rxTime[i])
    {
      var client: nat := clientByte % 128;
      if ParityBitCheck(tdma) && !FromMaster(tdma) {
        if client < CLIENTS && ParityBitCheck(clientByte) {
          var size: nat := tdma % 32;
          uplinkSt := uplinkSt[client := size];
          up2date := up2date[client := true];
          if size > 1 {
            uplinkUsage := uplinkUsage[client := 32];
            isFast := isFast[client := true];
          }
          if IsSynchro(tdma) {
            rxTime := rxTime[client := time];
          }
        }
      }
    }

    // The start of TDMA_master_allocation: fast clients use up their counter.
    method RenewAll()
      requires Valid()
      modifies `isFast, `uplinkUsage
      ensures Valid() && forall i | 0 <= i < CLIENTS :: Client(i) == Renew(old(Client(i)))
    {
      for i := 0 to CLIENTS
        invariant Valid()
        invariant forall k | 0 <= k < CLIENTS :: Client(k) == if k < i then Renew(old(Client(k))) else old(Client(k))
      {
        if status[i] && uplinkUsage[i] > 0 {
          isFast := isFast[i := true];
          uplinkUsage := uplinkUsage[i := uplinkUsage[i] - 1];
        }
      }
    }

    // TDMA_master_allocation_slow
    method AllocationSlow()
      requires Valid()
      modifies `isFast, `uplinkSt, `uplinkUsage
      ensures Valid() && forall i | 0 <= i < CLIENTS :: Client(i) == SlowTurn(old(Client(i)))
    {
      for i := 0 to CLIENTS
        invariant Valid()
        invariant forall k | 0 <= k < CLIENTS :: Client(k) == if k < i then SlowTurn(old(Client(k))) else old(Client(k))
      {
        if status[i] && uplinkUsage[i] == 0 {
          isFast := isFast[i := false];
        }
        if !status[i] {
          uplinkSt, uplinkUsage, isFast := uplinkSt[i := 0], uplinkUsage[i := 32], isFast[i := true];
        }
      }
    }

    // Section 2) of TDMA_master_allocation: needs that were not confirmed go down.
    method AgeNeeds()
      requires Valid()
      modifies `uplinkSt, `up2date
      ensures Valid() && forall i | 0 <= i < CLIENTS :: Client(i) == AgeNeed(old(Client(i)))
    {
      for i := 0 to CLIENTS
        invariant Valid()
        invariant forall k | 0 <= k < CLIENTS :: Client(k) == if k < i then AgeNeed(old(Client(k))) else old(Client(k))
      {
        if status[i] && !up2date[i] && uplinkSt[i] > 0 {
          uplinkSt := uplinkSt[i := uplinkSt[i] - 1];
        }
        up2date := up2date[i := false];
      }
    }

    // TDMA_master_allocation before the sharing.
    method BeginAllocation(frameNb: nat)
      requires Valid()
      modifies `isFast, `uplinkSt, `uplinkUsage, `up2date
      ensures Valid() && forall i | 0 <= i < CLIENTS :: Client(i) == Frame(old(Client(i)), frameNb)
    {
      RenewAll();
      if frameNb % 4 == 0 {
        AllocationSlow();
      }
      AgeNeeds();
    }

    // One slot each to the master and the fast clients.
    method FirstSlots() returns (left: seq<nat>, given: nat, fastClients: nat)
      requires Valid()
      modifies `slots, `masterSlots
      ensures Valid() && masterSlots == 1 && |left| == CLIENTS
      ensures forall i | 0 <= i < CLIENTS :: InStep(View(0), left, 0, i) && left[i] <= 31
      ensures given == 1 + Held(status, isFast, slots, CLIENTS) == 1 + fastClients <= 8
      ensures fastClients == Sharers(status, isFast, CLIENTS)
    {
      left := uplinkSt;
      masterSlots, given, fastClients := 1, 1, 0;
      for i := 0 to CLIENTS
        invariant Valid() && masterSlots == 1 && |left| == CLIENTS
        invariant forall k | 0 <= k < i :: InStep(View(0), left, 0, k)
        invariant forall k | 0 <= k < CLIENTS :: left[k] <= 31
        invariant given == 1 + Held(status, isFast, slots, i) == 1 + fastClients <= 1 + i
        invariant fastClients == Sharers(status, isFast, i)
      {
        ghost var before, left0 := View(0), left;
        if status[i] && isFast[i] {
          fastClients := fastClients + 1;
          slots := slots[i := 1];
          left := left[i := if uplinkSt[i] > 0 then uplinkSt[i] - 1 else 0];
          given := given + 1;
        }
        HeldPrefix(before.slots, slots, status, isFast, i);
        forall k | 0 <= k < i ensures InStep(View(0), left, 0, k) {
          assert InStep(before, left0, 0, k);
        }
      }
    }

    // 1st allocation pass: round robin among those who still need slots.
    method FirstPass(masterNeeds: nat, left: seq<nat>, already: nat, fastClients: nat, ghost masterNeed: nat)
      returns (given: nat, ghost left': seq<nat>, ghost masterLeft: nat, ghost rounds: nat)
      requires Valid() && |left| == CLIENTS && masterNeeds <= 29 && 1 + masterNeeds == Wanted(masterNeed)
      requires forall i | 0 <= i < CLIENTS :: InStep(View(masterNeed), left, 0, i) && left[i] <= 31
      requires masterSlots == 1 && already == 1 + Held(status, isFast, slots, CLIENTS) <= SLOTS
      requires fastClients == Sharers(status, isFast, CLIENTS)
      modifies `slots, `masterSlots
      ensures Valid() && |left'| == CLIENTS
      ensures given == masterSlots + Held(status, isFast, slots, CLIENTS) <= SLOTS
      ensures 1 <= masterSlots <= 1 + MasterTurns(status, isFast, rounds)
      ensures masterSlots + masterLeft == Wanted(masterNeed)
      ensures forall i | 0 <= i < CLIENTS :: Served(View(masterNeed), left', rounds, given, i)
      ensures MasterAt(View(masterNeed), masterLeft, rounds, given) && Ahead(View(masterNeed), left', CLIENTS)
      ensures given < SLOTS ==> masterLeft == 0
      ensures given < SLOTS ==> forall i | 0 <= i < CLIENTS && Shares(status, isFast, i) :: left'[i] == 0
    {
      hide InStep, Served, Ahead;
      var remaining := 1;
      var needs, master := left, masterNeeds;
      given := already;
      rounds := 0;
      PassBegins(View(masterNeed), needs, given);
      while given < SLOTS && remaining > 0
        invariant Valid() && |needs| == CLIENTS && master <= 29
        invariant given == masterSlots + Held(status, isFast, slots, CLIENTS) <= SLOTS
        invariant 1 <= masterSlots <= 1 + MasterTurns(status, isFast, rounds)
        invariant masterSlots + master == Wanted(masterNeed)
        invariant forall i | 0 <= i < CLIENTS :: Served(View(masterNeed), needs, rounds, given, i) && needs[i] <= 31
        invariant MasterAt(View(masterNeed), master, rounds, given) && Ahead(View(masterNeed), needs, CLIENTS)
        invariant remaining == 0 && given < SLOTS ==> master == 0
        invariant remaining == 0 && given < SLOTS
                  ==> forall i | 0 <= i < CLIENTS && Shares(status, isFast, i) :: needs[i] == 0
        decreases SLOTS - given, remaining
      {
        ghost var a, given0, master0 := View(masterNeed), given, master;
        if master > 0 && given < SLOTS {
          masterSlots, master, given := masterSlots + 1, master - 1, given + 1;
        }
        if master > 0 && given < SLOTS && fastClients > 1 {
          masterSlots, master, given := masterSlots + 1, master - 1, given + 1;
        }
        remaining := master;
        ghost var b, left0, mid, next := View(masterNeed), needs, given, rounds + 1;
        RoundBegins(a, b, needs, rounds, given0);
        needs, given, remaining := OneRound(needs, given, remaining, masterNeed, rounds, next);
        MasterNext(a, b, View(masterNeed), left0, master0, master, rounds, next, given0, mid, given);
        rounds := next;
      }
      left', masterLeft := needs, master;
    }

    // One turn over the clients.
    method OneRound(needs: seq<nat>, before: nat, left: nat, ghost masterNeed: nat, ghost rounds: nat, ghost next: nat)
      returns (needs': seq<nat>, given: nat, remaining: nat)
      requires Valid() && |needs| == CLIENTS && before == masterSlots + Held(status, isFast, slots, CLIENTS) <= SLOTS
      requires forall i | 0 <= i < CLIENTS :: InStep(View(masterNeed), needs, rounds, i) && needs[i] <= 31
      requires left <= 29 && next == rounds + 1
      modifies `slots
      ensures Valid() && |needs'| == CLIENTS
      ensures before <= given == masterSlots + Held(status, isFast, slots, CLIENTS) <= SLOTS
      ensures forall i | 0 <= i < CLIENTS :: Served(View(masterNeed), needs', next, given, i) && needs'[i] <= 31
      ensures Ahead(View(masterNeed), needs', CLIENTS)
      ensures before == SLOTS ==> slots == old(slots)
      ensures left <= remaining <= 255
      ensures given < SLOTS && (remaining == left || given == before) ==>
                remaining == left && forall i | 0 <= i < CLIENTS && Shares(status, isFast, i) :: needs'[i] == 0
    {
      hide InStep, Served, Ahead;
      needs', given, remaining := needs, before, left;
      NobodyAhead(View(masterNeed), needs);
      for i := 0 to CLIENTS
        invariant Valid() && |needs'| == CLIENTS
        invariant before <= given == masterSlots + Held(status, isFast, slots, CLIENTS) <= SLOTS
        invariant forall k | i <= k < CLIENTS :: InStep(View(masterNeed), needs', rounds, k)
        invariant forall k | 0 <= k < i :: Served(View(masterNeed), needs', next, given, k)
        invariant forall k | 0 <= k < CLIENTS :: needs'[k] <= 31
        invariant Ahead(View(masterNeed), needs', i)
        invariant before == SLOTS ==> slots == old(slots)
        invariant left <= remaining <= 29 + 31 * i
        invariant given < SLOTS && (remaining == left || given == before) ==>
                    remaining == left && forall k | 0 <= k < i && Shares(status, isFast, k) :: needs'[k] == 0
      {
        ghost var a, needs0, given0 := View(masterNeed), needs', given;
        if status[i] && isFast[i] && needs'[i] > 0 && given < SLOTS {
          HeldPlusOne(status, isFast, slots, i);
          slots := slots[i := slots[i] + 1];
          needs' := needs'[i := needs'[i] - 1];
          given := given + 1;
          remaining := remaining + needs'[i];
        }
        TurnKeeps(a, View(masterNeed), needs0, needs', rounds, next, given0, given, i);
      }
    }

    // 2nd allocation pass: what is left goes round even without needs.
    method SecondPass(before: nat, ghost masterNeed: nat)
      requires Valid() && before == masterSlots + Held(status, isFast, slots, CLIENTS) <= SLOTS
      requires masterSlots >= 1 && forall i | 0 <= i < CLIENTS && Shares(status, isFast, i) :: slots[i] >= 1
      modifies `slots, `masterSlots
      ensures Valid() && Complete(View(masterNeed))
      ensures before == SLOTS ==> slots == old(slots) && masterSlots == old(masterSlots)
      ensures masterSlots >= old(masterSlots) && forall i | 0 <= i < CLIENTS :: slots[i] >= old(slots[i])
      ensures GoneRound(status, isFast, old(slots), slots, masterSlots - old(masterSlots))
    {
      var given := before;
      ghost var slots0, master0 := slots, masterSlots;
      while given < SLOTS
        invariant Valid() && given == masterSlots + Held(status, isFast, slots, CLIENTS) <= SLOTS
        invariant before == SLOTS ==> slots == slots0 && masterSlots == master0
        invariant masterSlots >= master0 && forall i | 0 <= i < CLIENTS :: slots[i] >= slots0[i]
        invariant GoneRound(status, isFast, slots0, slots, masterSlots - master0)
        invariant given < SLOTS ==> AllRound(status, isFast, slots0, slots, masterSlots - master0, CLIENTS)
      {
        masterSlots := masterSlots + 1;
        given := SurplusRound(given + 1, slots0, masterSlots - master0);
      }
    }

    // One turn over the clients; they are one slot behind the master, who has got x.
    method SurplusRound(before: nat, ghost slots0: seq<nat>, ghost x: nat) returns (given: nat)
      requires Valid() && before == masterSlots + Held(status, isFast, slots, CLIENTS) <= SLOTS
      requires |slots0| == CLIENTS && x > 0 && AllRound(status, isFast, slots0, slots, x - 1, CLIENTS)
      modifies `slots
      ensures Valid() && before <= given == masterSlots + Held(status, isFast, slots, CLIENTS) <= SLOTS
      ensures forall i | 0 <= i < CLIENTS :: slots[i] >= old(slots[i])
      ensures GoneRound(status, isFast, slots0, slots, x)
      ensures given < SLOTS ==> AllRound(status, isFast, slots0, slots, x, CLIENTS)
    {
      given := before;
      for i := 0 to CLIENTS
        invariant Valid() && before <= given == masterSlots + Held(status, isFast, slots, CLIENTS) <= SLOTS
        invariant forall k | 0 <= k < CLIENTS :: slots[k] >= old(slots[k])
        invariant GoneRound(status, isFast, slots0, slots, x)
        invariant given < SLOTS ==> AllRound(status, isFast, slots0, slots, x, i)
        invariant forall k | i <= k < CLIENTS && Shares(status, isFast, k) :: slots[k] == slots0[k] + x - 1
      {
        if status[i] && isFast[i] && given < SLOTS {
          HeldPlusOne(status, isFast, slots, i);
          slots := slots[i := slots[i] + 1];
          given := given + 1;
        }
      }
    }

    // Sections 3) to 5) of TDMA_master_allocation; the downlink need is capped at 30.
    method AllocateSlots(downlink: nat)
      requires Valid() && downlink <= 30
      modifies `slots, `masterSlots
      ensures Valid()
      ensures Complete(View(downlink)) && masterSlots + Held(status, isFast, slots, CLIENTS) == 15
      ensures Surplus(View(downlink)) ==> NeedsMet(View(downlink))
      ensures Fair(View(downlink)) && MasterServed(View(downlink))
      ensures InTurn(View(downlink)) && Evenly(View(downlink))
    {
      hide Served, Ahead, MasterAt, Surplus, NeedsMet, Fair, MasterServed, InTurn, Evenly, GoneRound, Sharers;
      var left, first, fastClients := FirstSlots();
      forall i | 0 <= i < CLIENTS ensures InStep(View(downlink), left, 0, i) {
        assert InStep(View(0), left, 0, i);
      }
      var given, left1, masterLeft, rounds :=
        FirstPass(if downlink > 0 then downlink - 1 else 0, left, first, fastClients, downlink);
      ghost var mid := View(downlink);
      ServedMeans(mid, left1, rounds, given);
      SecondPass(given, downlink);
      JudgeNeeds(mid, left1, masterLeft, rounds, given, View(downlink));
      JudgeClients(mid, left1, masterLeft, rounds, given, View(downlink));
      JudgeFair(mid, left1, masterLeft, rounds, given, View(downlink));
      JudgeMaster(mid, left1, masterLeft, rounds, given, View(downlink));
    }
  }

  // Every client has got x or x - 1 slots more, the earlier ones not less than the later ones.
  predicate GoneRound(status: seq<bool>, isFast: seq<bool>, before: seq<nat>, after: seq<nat>, x: int)
    requires CLIENTS == |status| == |isFast| == |before| == |after|
  {
    && (forall i | 0 <= i < CLIENTS && Shares(status, isFast, i) :: before[i] + x - 1 <= after[i] <= before[i] + x)
    && forall i, j | 0 <= i < j < CLIENTS && Shares(status, isFast, i) && Shares(status, isFast, j) ::
         after[j] + before[i] <= after[i] + before[j]
  }

  // The first n have got x.
  predicate AllRound(status: seq<bool>, isFast: seq<bool>, before: seq<nat>, after: seq<nat>, x: int, n: nat)
    requires n <= CLIENTS == |status| == |isFast| == |before| == |after|
  {
    forall i | 0 <= i < n && Shares(status, isFast, i) :: after[i] == before[i] + x
  }

  lemma AheadAtStart(a: Share, left: seq<nat>)
    requires Sized(a) && |left| == CLIENTS && forall i | 0 <= i < CLIENTS :: InStep(a, left, 0, i)
    ensures Ahead(a, left, CLIENTS)
  {
    forall i | 0 <= i < CLIENTS && Shares(a.status, a.isFast, i) ensures a.slots[i] == 1 {
      assert InStep(a, left, 0, i);
    }
  }

  lemma NobodyAhead(a: Share, left: seq<nat>)
    requires Sized(a) && |left| == CLIENTS
    ensures Ahead(a, left, 0)
  {}

  // Client i takes a slot in its turn, or none because it needs none or none is left.
  predicate Turn(a: Share, b: Share, left: seq<nat>, left': seq<nat>, given: nat, given': nat, i: nat)
    requires Sized(a) && |left| == |left'| == CLIENTS && i < CLIENTS
  {
    if Shares(a.status, a.isFast, i) && left[i] > 0 && given < SLOTS then
      && b == a.(slots := a.slots[i := a.slots[i] + 1])
      && left' == left[i := left[i] - 1] && given' == given + 1 <= SLOTS
    else b == a && left' == left && given' == given <= SLOTS
  }

  lemma TurnKeeps(a: Share, b: Share, left: seq<nat>, left': seq<nat>, rounds: nat, next: nat,
                  given: nat, given': nat, i: nat)
    requires Sized(a) && |left| == |left'| == CLIENTS && i < CLIENTS && next == rounds + 1
    requires forall k | i <= k < CLIENTS :: InStep(a, left, rounds, k)
    requires forall k | 0 <= k < i :: Served(a, left, next, given, k)
    requires Ahead(a, left, i) && Turn(a, b, left, left', given, given', i)
    ensures Sized(b)
    ensures forall k | i + 1 <= k < CLIENTS :: InStep(b, left', rounds, k)
    ensures forall k | 0 <= k < i + 1 :: Served(b, left', next, given', k)
    ensures Ahead(b, left', i + 1)
  {
    assert InStep(a, left, rounds, i);
    forall k | i + 1 <= k < CLIENTS ensures InStep(b, left', rounds, k) {
      assert InStep(a, left, rounds, k);
    }
    forall k | 0 <= k < i ensures Served(b, left', next, given', k) {
      assert Served(a, left, next, given, k);
    }
    forall k, l | 0 <= k < i + 1 && k < l < CLIENTS && Shares(a.status, a.isFast, k) && Shares(a.status, a.isFast, l)
                  && left'[k] > 0
      ensures b.slots[l] <= b.slots[k]
    {
      if k == i {
        assert InStep(a, left, rounds, l);
      } else {
        assert Served(a, left, next, given, k);
      }
    }
  }

  // While slots are left, everybody has had their turn; the master's own turn changes nothing else.
  lemma RoundBegins(a: Share, b: Share, left: seq<nat>, rounds: nat, given: nat)
    requires Sized(a) && |left| == CLIENTS && given < SLOTS && b == a.(master := b.master)
    requires forall i | 0 <= i < CLIENTS :: Served(a, left, rounds, given, i)
    ensures forall i | 0 <= i < CLIENTS :: InStep(b, left, rounds, i)
  {
    forall i | 0 <= i < CLIENTS ensures InStep(b, left, rounds, i) {
      assert Served(a, left, rounds, given, i);
    }
  }

  lemma PassBegins(a: Share, left: seq<nat>, given: nat)
    requires Sized(a) && |left| == CLIENTS && forall i | 0 <= i < CLIENTS :: InStep(a, left, 0, i)
    ensures forall i | 0 <= i < CLIENTS :: Served(a, left, 0, given, i)
    ensures Ahead(a, left, CLIENTS)
  {
    forall i | 0 <= i < CLIENTS ensures Served(a, left, 0, given, i) {
      assert InStep(a, left, 0, i);
    }
    AheadAtStart(a, left);
  }

  // The master's turn, one slot or two, and the round behind it.
  lemma MasterNext(a: Share, b: Share, c: Share, left: seq<nat>, need: nat, need': nat, rounds: nat, next: nat,
                   given: nat, mid: nat, given': nat)
    requires Sized(a) && Sized(c) && |left| == CLIENTS && given < SLOTS && next == rounds + 1
    requires b == a.(master := b.master) && c == b.(slots := c.slots) && MasterAt(a, need, rounds, given)
    requires forall i | 0 <= i < CLIENTS :: InStep(b, left, rounds, i)
    requires var several := Sharers(a.status, a.isFast, CLIENTS) > 1;
             var taken := if need == 0 then 0 else if need == 1 || !several || given + 1 == SLOTS then 1 else 2;
             b.master == a.master + taken && need' == need - taken && mid == given + taken
    requires mid == SLOTS ==> c == b && given' == SLOTS
    ensures MasterAt(c, need', next, given')
  {
    if mid == SLOTS {
      forall i | 0 <= i < CLIENTS && Shares(a.status, a.isFast, i) ensures c.slots[i] <= next {
        assert InStep(b, left, rounds, i);
      }
    }
  }

  // The end of the first pass, mid, and of the second one, end.
  predicate Outcome(mid: Share, left: seq<nat>, masterLeft: nat, rounds: nat, given: nat, end: Share)
    requires Sized(mid) && Sized(end) && |left| == CLIENTS
  {
    && given <= SLOTS && mid.(slots := end.slots, master := end.master) == end
    && mid.master <= 1 + MasterTurns(mid.status, mid.isFast, rounds)
    && mid.master + masterLeft == Wanted(mid.masterNeed)
    && (forall i | 0 <= i < CLIENTS :: Served(mid, left, rounds, given, i))
    && MasterAt(mid, masterLeft, rounds, given) && Ahead(mid, left, CLIENTS)
    && (given < SLOTS ==> masterLeft == 0)
    && (given < SLOTS ==> forall i | 0 <= i < CLIENTS && Shares(mid.status, mid.isFast, i) :: left[i] == 0)
    && (given == SLOTS ==> end == mid)
    && GoneRound(mid.status, mid.isFast, mid.slots, end.slots, end.master - mid.master)
    && end.master >= mid.master && forall i | 0 <= i < CLIENTS :: end.slots[i] >= mid.slots[i]
  }

  lemma ServedMeans(a: Share, left: seq<nat>, rounds: nat, given: nat)
    requires Sized(a) && |left| == CLIENTS && forall i | 0 <= i < CLIENTS :: Served(a, left, rounds, given, i)
    ensures forall i | 0 <= i < CLIENTS && Shares(a.status, a.isFast, i) ::
              && 1 <= a.slots[i] <= 1 + rounds && a.slots[i] + left[i] == Wanted(a.need[i])
              && (left[i] > 0 ==> a.slots[i] >= rounds)
  {
    forall i | 0 <= i < CLIENTS && Shares(a.status, a.isFast, i)
      ensures 1 <= a.slots[i] <= 1 + rounds && a.slots[i] + left[i] == Wanted(a.need[i])
      ensures left[i] > 0 ==> a.slots[i] >= rounds
    {
      assert Served(a, left, rounds, given, i);
    }
  }

  // What the two passes amount to.
  lemma JudgeNeeds(mid: Share, left: seq<nat>, masterLeft: nat, rounds: nat, given: nat, end: Share)
    requires Sized(mid) && Sized(end) && |left| == CLIENTS && Outcome(mid, left, masterLeft, rounds, given, end)
    ensures Surplus(end) ==> NeedsMet(end)
    ensures Evenly(end)
  {
    ServedMeans(mid, left, rounds, given);
  }

  lemma JudgeClients(mid: Share, left: seq<nat>, masterLeft: nat, rounds: nat, given: nat, end: Share)
    requires Sized(mid) && Sized(end) && |left| == CLIENTS && Outcome(mid, left, masterLeft, rounds, given, end)
    ensures InTurn(end)
  {
    ServedMeans(mid, left, rounds, given);
  }

  lemma JudgeFair(mid: Share, left: seq<nat>, masterLeft: nat, rounds: nat, given: nat, end: Share)
    requires Sized(mid) && Sized(end) && |left| == CLIENTS && Outcome(mid, left, masterLeft, rounds, given, end)
    ensures Fair(end)
  {
    hide Sharers, MasterAt, Ahead, Served;
    ServedMeans(mid, left, rounds, given);
  }

  lemma JudgeMaster(mid: Share, left: seq<nat>, masterLeft: nat, rounds: nat, given: nat, end: Share)
    requires Sized(mid) && Sized(end) && |left| == CLIENTS && Outcome(mid, left, masterLeft, rounds, given, end)
    ensures MasterServed(end)
  {
    hide Sharers, Ahead, Served;
    ServedMeans(mid, left, rounds, given);
  }

  lemma HeldPlusOne(status: seq<bool>, isFast: seq<bool>, slots: seq<nat>, i: nat)
    requires i < |status| == |isFast| == |slots| == CLIENTS && Shares(status, isFast, i)
    ensures Held(status, isFast, slots[i := slots[i] + 1], CLIENTS) == Held(status, isFast, slots, CLIENTS) + 1
  {
    HeldMore(status, isFast, slots, i, CLIENTS);
  }

  lemma {:induction false} HeldPrefix(slots: seq<nat>, slots': seq<nat>, status: seq<bool>, isFast: seq<bool>, n: nat)
    requires n <= |status| == |isFast| == |slots| == |slots'| && slots[..n] == slots'[..n]
    ensures Held(status, isFast, slots, n) == Held(status, isFast, slots', n)
  {
    if n > 0 {
      assert slots[..n][..n - 1] == slots[..n - 1] && slots'[..n][..n - 1] == slots'[..n - 1];
      assert slots[n - 1] == slots[..n][n - 1] && slots'[n - 1] == slots'[..n][n - 1];
      HeldPrefix(slots, slots', status, isFast, n - 1);
    }
  }
}
