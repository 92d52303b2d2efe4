// The master's picture of one client: its declared need, whether it takes part in the fast
// slots, and how both age while nothing is heard (source/TDMA.cpp:157-172, 227-250, 406-418).
module Uplink {

  // TDMA_table_uplink_st, _uplink_usage, _is_fast and _up2date of a client, and whether it is
  // connected.
  datatype Uplink = Uplink(active: bool, st: nat, usage: nat, fast: bool, upToDate: bool)

  // A frame of the client announces the length of its queue.
  function Hear(u: Uplink, size: nat): Uplink {
    var heard := u.(st := size, upToDate := true);
    if size > 1 then heard.(usage := 32, fast := true) else heard
  }

  function Renew(u: Uplink): Uplink {
    if u.active && u.usage > 0 then u.(fast := true, usage := u.usage - 1) else u
  }

  // TDMA_master_allocation_slow
  function SlowTurn(u: Uplink): Uplink {
    if !u.active then u.(st := 0, usage := 32, fast := true)
    else if u.usage == 0 then u.(fast := false)
    else u
  }

  function AgeNeed(u: Uplink): Uplink {
    var aged := if u.active && !u.upToDate && u.st > 0 then u.(st := u.st - 1) else u;
    aged.(upToDate := false)
  }

  // What every allocation does before it shares the slots.
  function Frame(u: Uplink, frameNb: nat): Uplink {
    var renewed := Renew(u);
    AgeNeed(if frameNb % 4 == 0 then SlowTurn(renewed) else renewed)
  }

  // n allocations in a row, the first in frame f, without hearing the client.
  function Silence(u: Uplink, f: nat, n: nat): Uplink
    decreases n
  {
    if n == 0 then u else Silence(Frame(u, f), f + 1, n - 1)
  }

  // How many allocations a silent client stays fast for: as many as its usage counter says, and
  // on to the next frame whose number is a multiple of four.
  function FastFor(u: Uplink, f: nat): nat {
    if u.usage > 0 then u.usage + (3 - (f + u.usage + 2) % 4)
    else 1 + (3 - (f + 3) % 4)
  }

  // A connected client that falls silent keeps its fast slots for exactly that long.
  lemma {:induction false} SilentClientSlows(u: Uplink, f: nat, n: nat)
    requires u.active && (u.fast || u.usage > 0)
    ensures n > 0 ==> (Silence(u, f, n).fast <==> n < FastFor(u, f))
    decreases n
  {
    if n > 0 {
      var next := Frame(u, f);
      FastForStep(u, f);
      if next.fast {
        SilentClientSlows(next, f + 1, n - 1);
      } else {
        StaysSlow(next, f + 1, n - 1);
      }
    }
  }

  lemma FastForStep(u: Uplink, f: nat)
    requires u.active && (u.fast || u.usage > 0)
    ensures Frame(u, f).fast <==> FastFor(u, f) > 1
    ensures Frame(u, f).fast ==> FastFor(Frame(u, f), f + 1) == FastFor(u, f) - 1
    ensures !Frame(u, f).fast ==> Frame(u, f).usage == 0
  {
  }

  lemma {:induction false} StaysSlow(u: Uplink, f: nat, n: nat)
    requires u.active && !u.fast && u.usage == 0
    ensures !Silence(u, f, n).fast
    decreases n
  {
    if n > 0 {
      StaysSlow(Frame(u, f), f + 1, n - 1);
    }
  }

  // So after a frame that announced more than one waiting frame it is fast for 31 allocations
  // at least, and slow after 35 at most.
  lemma FastWindow(u: Uplink, size: nat, f: nat, n: nat)
    requires u.active && size > 1
    ensures n <= 31 ==> Silence(Hear(u, size), f, n).fast
    ensures n >= 35 ==> !Silence(Hear(u, size), f, n).fast
  {
    if n > 0 {
      SilentClientSlows(Hear(u, size), f, n);
    }
  }

  // Its need is believed for the allocation that follows, then forgotten one by one.
  lemma {:induction false} NeedFades(u: Uplink, f: nat, n: nat)
    requires u.active
    ensures var held := if u.upToDate && n > 0 then n - 1 else n;
            Silence(u, f, n).st == if u.st > held then u.st - held else 0
    decreases n
  {
    if n > 0 {
      NeedFades(Frame(u, f), f + 1, n - 1);
    }
  }

  // A declared need counts in full for the next allocation, and only one of more than one frame makes
  // a client fast.
  lemma DeclaredNeed(u: Uplink, size: nat, f: nat)
    requires u.active
    ensures Frame(Hear(u, size), f).st == size
    ensures size <= 1 ==> Hear(u, size).usage == u.usage && Hear(u, size).fast == u.fast
    ensures size > 1 ==> Frame(Hear(u, size), f).fast && Frame(Hear(u, size), f).usage == 31
  {}

  // A client that is not connected is set up anew: no need, and fast. So one that connects right
  // after is fast for its first 31 allocations, and slow from then on unless it has been heard.
  lemma NewcomerFast(u: Uplink, f: nat, n: nat)
    requires !u.active && f % 4 == 0
    ensures var reset := Frame(u, f);
            && !reset.active && reset.st == 0 && reset.usage == 32 && reset.fast && !reset.upToDate
            && Silence(reset.(active := true), f + 1, n).st == 0
            && (Silence(reset.(active := true), f + 1, n).fast <==> n < 32)
  {
    hide Silence;
    var connected := Frame(u, f).(active := true);
    assert Silence(connected, f + 1, 0) == connected by { StillThere(connected, f + 1); }
    NeedFades(connected, f + 1, n);
    if n > 0 {
      FullWindow(f);
      SilentClientSlows(connected, f + 1, n);
    }
  }

  lemma StillThere(u: Uplink, f: nat)
    ensures Silence(u, f, 0) == u
  {}

  lemma FullWindow(f: nat)
    requires f % 4 == 0
    ensures (f + 1 + 32 + 2) % 4 == 3
  {
    assert f + 35 == 4 * (f / 4 + 8) + 3;
  }

  // In any other frame it stays as it was.
  lemma UnconnectedStays(u: Uplink, f: nat)
    requires !u.active && f % 4 != 0
    ensures Frame(u, f) == u.(upToDate := false)
  {}
}
