// The master's client table: address ranges, connections, timeouts and lookups
// (source/signaling.cpp:143-261, 381-391, 571-580; source/Eth_IPv4.cpp:288-300).
module AddressTable {

  const N: nat := 7
  const NONE: nat := 0xFFFF_FFFF
  const WORD: nat := 0x1_0000_0000

  // The parallel arrays CONF_radio_addr_table_*; an unsigned long has 32 bits.
  datatype Table = Table(begin: seq<nat>, size: seq<nat>, callsign: seq<string>, status: seq<nat>, date: seq<nat>)

  datatype Pool = Pool(start: nat, size: nat) {
    function End(): nat { start + size }
  }

  predicate Sized(t: Table) {
    && |t.begin| == |t.size| == |t.callsign| == |t.status| == |t.date| == N
  }

  predicate PoolOk(p: Pool) { p.End() < NONE }

  predicate Active(t: Table, i: nat)
    requires Sized(t) && i < N
  {
    t.status[i] > 0
  }

  function EndOf(t: Table, i: nat): nat
    requires Sized(t) && i < N
  {
    t.begin[i] + t.size[i]
  }

  // ----- the range search as the code does it -----

  // Unsigned subtraction.
  function Minus(a: nat, b: nat): nat { (a - b) % WORD }

  // Lowest begin of an active range at or above cur among the first n, or the pool's end.
  function NextFrom(p: Pool, t: Table, cur: nat, n: nat): nat
    requires Sized(t) && n <= N
  {
    if n == 0 then p.End()
    else
      var m := NextFrom(p, t, cur, n - 1);
      if Active(t, n - 1) && t.begin[n - 1] >= cur && t.begin[n - 1] < m then t.begin[n - 1] else m
  }

  predicate BigEnough(p: Pool, t: Table, cur: nat, req: nat)
    requires Sized(t)
  {
    Minus(NextFrom(p, t, cur, N), cur) >= req
  }

  // The answer after looking behind the pool's start and the first n entries.
  function Search(p: Pool, t: Table, req: nat, n: nat): nat
    requires Sized(t) && n <= N
  {
    if n == 0 then (if BigEnough(p, t, p.start, req) then p.start else NONE)
    else
      var sofar := Search(p, t, req, n - 1);
      if Active(t, n - 1) && EndOf(t, n - 1) % WORD < sofar && BigEnough(p, t, EndOf(t, n - 1) % WORD, req)
      then EndOf(t, n - 1) % WORD else sofar
  }

  // ----- what it means -----

  predicate Apart(t: Table, i: nat, j: nat)
    requires Sized(t) && i < N && j < N
  {
    EndOf(t, i) <= t.begin[j] || EndOf(t, j) <= t.begin[i]
  }

  // An active entry owns a non-empty range inside the pool.
  predicate Placed(p: Pool, t: Table, i: nat)
    requires Sized(t) && i < N
  {
    t.size[i] > 0 && p.start <= t.begin[i] && EndOf(t, i) <= p.End()
  }

  // Active ranges lie inside the pool and do not overlap.
  predicate Consistent(p: Pool, t: Table) {
    && Sized(t)
    && (forall i | 0 <= i < N && Active(t, i) :: Placed(p, t, i))
    && (forall i, j | 0 <= i < j < N && Active(t, i) && Active(t, j) :: Apart(t, i, j))
  }

  predicate Clear(t: Table, b: nat, req: nat, i: nat)
    requires Sized(t) && i < N
  {
    Active(t, i) ==> b + req <= t.begin[i] || EndOf(t, i) <= b
  }

  // req addresses from b are in the pool and not granted to anyone.
  predicate Free(p: Pool, t: Table, b: nat, req: nat)
    requires Sized(t)
  {
    p.start <= b && b + req <= p.End() && forall i | 0 <= i < N :: Clear(t, b, req, i)
  }

  // ----- the search is optimal and complete -----

  lemma {:induction false} NextFromIs(p: Pool, t: Table, cur: nat, n: nat)
    requires Sized(t) && n <= N && cur <= p.End()
    ensures cur <= NextFrom(p, t, cur, n) <= p.End()
    ensures forall j | 0 <= j < n && Active(t, j) && t.begin[j] >= cur 
              :: t.begin[j] >= NextFrom(p, t, cur, n) || t.begin[j] >= p.End()
    ensures NextFrom(p, t, cur, n) < p.End() ==>
              exists j | 0 <= j < n :: Active(t, j) && t.begin[j] == NextFrom(p, t, cur, n)
  {
    if n > 0 {
      NextFromIs(p, t, cur, n - 1);
    }
  }

  // The places where a free interval can start lowest.
  predicate Candidate(p: Pool, t: Table, c: nat)
    requires Sized(t)
  {
    c == p.start || exists i | 0 <= i < N :: Active(t, i) && c == EndOf(t, i)
  }

  lemma CandidateRange(p: Pool, t: Table, c: nat)
    requires Consistent(p, t) && Candidate(p, t, c)
    ensures p.start <= c <= p.End()
  {
    if c != p.start {
      var i :| 0 <= i < N && Active(t, i) && c == EndOf(t, i);
      assert Placed(p, t, i);
    }
  }

  // Between a candidate and the next begin nothing is granted.
  lemma CandidateFree(p: Pool, t: Table, c: nat, req: nat)
    requires Consistent(p, t) && Candidate(p, t, c) && c + req <= NextFrom(p, t, c, N)
    ensures Free(p, t, c, req)
  {
    CandidateRange(p, t, c);
    NextFromIs(p, t, c, N);
    forall j | 0 <= j < N
      ensures Clear(t, c, req, j)
    {
      if Active(t, j) {
        assert Placed(p, t, j);
        if t.begin[j] < c && c != p.start {
          var i :| 0 <= i < N && Active(t, i) && c == EndOf(t, i);
          assert Placed(p, t, i);
          assert i < j ==> Apart(t, i, j);
          assert j < i ==> Apart(t, j, i);
        }
      }
    }
  }

  // The highest candidate at or below b among the pool's start and the first n entries.
  function Below(p: Pool, t: Table, b: nat, n: nat): nat
    requires Sized(t) && n <= N
  {
    if n == 0 then p.start
    else
      var c := Below(p, t, b, n - 1);
      if Active(t, n - 1) && c < EndOf(t, n - 1) <= b then EndOf(t, n - 1) else c
  }

  lemma {:induction false} BelowIs(p: Pool, t: Table, b: nat, n: nat)
    requires Sized(t) && n <= N && p.start <= b
    ensures p.start <= Below(p, t, b, n) <= b && Candidate(p, t, Below(p, t, b, n))
    ensures forall i | 0 <= i < n && Active(t, i) && EndOf(t, i) <= b :: EndOf(t, i) <= Below(p, t, b, n)
  {
    if n > 0 {
      BelowIs(p, t, b, n - 1);
    }
  }

  // Every free interval has a good candidate at or below its start.
  lemma FreeHasCandidate(p: Pool, t: Table, b: nat, req: nat) returns (c: nat)
    requires Consistent(p, t) && req >= 1 && Free(p, t, b, req)
    ensures c <= b && Candidate(p, t, c) && c + req <= NextFrom(p, t, c, N)
  {
    c := Below(p, t, b, N);
    BelowIs(p, t, b, N);
    NextFromIs(p, t, c, N);
    var next := NextFrom(p, t, c, N);
    if next < p.End() {
      var j :| 0 <= j < N && Active(t, j) && t.begin[j] == next;
      assert Clear(t, b, req, j) && Placed(p, t, j);
    }
  }

  predicate Good(p: Pool, t: Table, c: nat, req: nat)
    requires Sized(t)
  {
    Candidate(p, t, c) && c + req <= NextFrom(p, t, c, N)
  }

  lemma BigEnoughMeans(p: Pool, t: Table, c: nat, req: nat)
    requires Consistent(p, t) && PoolOk(p) && Candidate(p, t, c)
    ensures c < NONE && c % WORD == c
    ensures BigEnough(p, t, c, req) <==> c + req <= NextFrom(p, t, c, N)
  {
    hide NextFrom;
    CandidateRange(p, t, c);
    NextFromIs(p, t, c, N);
  }

  // The search yields the lowest good candidate among those looked at.
  lemma {:induction false} SearchIs(p: Pool, t: Table, req: nat, n: nat)
    requires Consistent(p, t) && PoolOk(p) && n <= N
    ensures Search(p, t, req, n) == NONE || Good(p, t, Search(p, t, req, n), req)
    ensures Good(p, t, p.start, req) ==> Search(p, t, req, n) <= p.start
    ensures forall i | 0 <= i < n && Active(t, i) && Good(p, t, EndOf(t, i), req) :: Search(p, t, req, n) <= EndOf(t, i)
  {
    if n == 0 {
      assert Candidate(p, t, p.start);
      BigEnoughMeans(p, t, p.start, req);
    } else {
      SearchIs(p, t, req, n - 1);
      if Active(t, n - 1) {
        assert Candidate(p, t, EndOf(t, n - 1));
        BigEnoughMeans(p, t, EndOf(t, n - 1), req);
      }
    }
  }

  // The result is the lowest start of a free interval of the requested size, and the
  // failure value comes out exactly when there is none.
  lemma SearchOptimal(p: Pool, t: Table, req: nat)
    requires Consistent(p, t) && PoolOk(p) && req >= 1
    ensures var a := Search(p, t, req, N);
            && (a != NONE ==> Free(p, t, a, req) && forall b | Free(p, t, b, req) :: a <= b)
            && (a == NONE <==> forall b :: !Free(p, t, b, req))
  {
    var a := Search(p, t, req, N);
    SearchIs(p, t, req, N);
    if a != NONE {
      CandidateFree(p, t, a, req);
    }
    forall b | Free(p, t, b, req)
      ensures a <= b && a != NONE
    {
      var c := FreeHasCandidate(p, t, b, req);
      assert Good(p, t, c, req);
      CandidateRange(p, t, c);
    }
  }

  // ----- connections -----

  // The last entry with that callsign among the first n, or N.
  function Existing(t: Table, callsign: string, n: nat): (e: nat)
    requires Sized(t) && n <= N
    ensures e < n || e == N
    ensures e < n ==> t.callsign[e] == callsign
    ensures e == N ==> forall i | 0 <= i < n :: t.callsign[i] != callsign
    ensures forall i | e < i < n :: t.callsign[i] != callsign
  {
    if n == 0 then N else if t.callsign[n - 1] == callsign then n - 1 else Existing(t, callsign, n - 1)
  }

  // The lowest inactive entry at or above n, or N.
  function FirstInactive(t: Table, n: nat): (e: nat)
    requires Sized(t) && n <= N
    ensures n <= e <= N
    ensures forall i | n <= i < e :: Active(t, i)
    ensures e < N ==> !Active(t, e)
    decreases N - n
  {
    if n == N then N else if !Active(t, n) then n else FirstInactive(t, n + 1)
  }

  function Grant(t: Table, i: nat, callsign: string, begin: nat, size: nat, now: nat): (r: Table)
    requires Sized(t) && i < N
    ensures Sized(r)
  {
    Table(t.begin[i := begin], t.size[i := size], t.callsign[i := callsign], t.status[i := 1], t.date[i := now])
  }

  datatype Answer = Ack(id: nat) | Nack(reason: nat)

  // signaling_connect_req_process
  function Connect(p: Pool, t: Table, callsign: string, req: nat, now: nat): (r: (Table, Answer))
    requires Sized(t)
    ensures Sized(r.0) && (r.1.Ack? ==> r.1.id < N)
  {
    var e := Existing(t, callsign, N);
    if e < N && req == t.size[e] then
      (t.(status := t.status[e := 1], date := t.date[e := now]), Ack(e))
    else if e < N then
      var freed := t.(status := t.status[e := 0]);
      var ip := Search(p, freed, req, N);
      if ip != NONE then (Grant(freed, e, callsign, ip, req, now), Ack(e)) else (freed, Nack(2))
    else
      var id := FirstInactive(t, 0);
      if id == N then (t, Nack(3))
      else
        var ip := Search(p, t, req, N);
        if ip != NONE then (Grant(t, id, callsign, ip, req, now), Ack(id)) else (t, Nack(2))
  }

  // signaling_disconnect_req_process
  function Disconnect(t: Table, callsign: string): (r: Table)
    requires Sized(t)
    ensures Sized(r)
  {
    var e := Existing(t, callsign, N);
    if e < N then t.(status := t.status[e := 0]) else t
  }

  // The timeouts of signaling_periodic_call: entry i has been silent for too long.
  predicate Silent(t: Table, i: nat, now: nat, limit: nat)
    requires Sized(t) && i < N
  {
    t.status[i] == 1 && Minus(now, t.date[i]) > limit
  }

  function StatusAfter(t: Table, i: nat, now: nat, limit: nat): nat
    requires Sized(t) && i < N
  {
    if Silent(t, i, now, limit) then 0 else t.status[i]
  }

  function Expire(t: Table, now: nat, limit: nat): (r: Table)
    requires Sized(t)
    ensures Sized(r)
  {
    Table(t.begin, t.size, t.callsign, seq(N, i requires 0 <= i < N => StatusAfter(t, i, now, limit)), t.date)
  }

  // lookfor_client_ID_from_IP: the last entry whose range holds the address, or 250.
  function ClientOf(t: Table, ip: nat, n: nat): nat
    requires Sized(t) && n <= N
  {
    if n == 0 then 250
    else if t.begin[n - 1] <= ip < EndOf(t, n - 1) % WORD then n - 1
    else ClientOf(t, ip, n - 1)
  }

  const ZEROS: seq<nat> := [0, 0, 0, 0, 0, 0, 0]
  const EMPTY := Table(ZEROS, ZEROS, ["", "", "", "", "", "", ""], ZEROS, ZEROS)

  // ----- exactly when a connection keeps the ranges apart -----

  // The branch that reactivates an entry without looking whether its range is still free.
  predicate BlindReactivation(p: Pool, t: Table, callsign: string, req: nat)
    requires Sized(t)
  {
    var e := Existing(t, callsign, N);
    e < N && req == t.size[e] && !Active(t, e) && !Free(p, t, t.begin[e], req)
  }

  lemma GrantKeeps(p: Pool, t: Table, i: nat, callsign: string, begin: nat, size: nat, now: nat)
    requires Consistent(p, t) && i < N && !Active(t, i) && size >= 1 && Free(p, t, begin, size)
    ensures Consistent(p, Grant(t, i, callsign, begin, size, now))
  {
    var r := Grant(t, i, callsign, begin, size, now);
    forall k | 0 <= k < N && Active(r, k) ensures Placed(p, r, k) {
      if k != i { assert Placed(p, t, k); }
    }
    forall k, l | 0 <= k < l < N && Active(r, k) && Active(r, l) ensures Apart(r, k, l) {
      if k == i { assert Clear(t, begin, size, l); }
      else if l == i { assert Clear(t, begin, size, k); }
      else { assert Apart(t, k, l); }
    }
  }

  lemma FewerActiveKeeps(p: Pool, t: Table, r: Table)
    requires Consistent(p, t) && Sized(r) && r.begin == t.begin && r.size == t.size
    requires forall i | 0 <= i < N && Active(r, i) :: Active(t, i)
    ensures Consistent(p, r)
  {
    forall k | 0 <= k < N && Active(r, k) ensures Placed(p, r, k) { assert Placed(p, t, k); }
    forall k, l | 0 <= k < l < N && Active(r, k) && Active(r, l) ensures Apart(r, k, l) { assert Apart(t, k, l); }
  }

  lemma ConnectKeepsApart(p: Pool, t: Table, callsign: string, req: nat, now: nat)
    requires Consistent(p, t) && PoolOk(p) && req >= 1
    ensures Consistent(p, Connect(p, t, callsign, req, now).0) <==> !BlindReactivation(p, t, callsign, req)
  {
    var e := Existing(t, callsign, N);
    var r := Connect(p, t, callsign, req, now).0;
    if e < N && req == t.size[e] {
      if Active(t, e) {
        FewerActiveKeeps(p, t, r);
      } else if Free(p, t, t.begin[e], req) {
        GrantKeeps(p, t, e, callsign, t.begin[e], req, now);
        assert r == Grant(t, e, callsign, t.begin[e], req, now);
      } else {
        Overlaps(p, t, r, e);
      }
    } else {
      var base := if e < N then t.(status := t.status[e := 0]) else t;
      FewerActiveKeeps(p, t, base);
      SearchOptimal(p, base, req);
      var ip := Search(p, base, req, N);
      var id := if e < N then e else FirstInactive(t, 0);
      if ip != NONE && id < N {
        GrantKeeps(p, base, id, callsign, ip, req, now);
      }
    }
  }

  // Reactivating an occupied range makes two active ranges overlap or leaves the pool.
  lemma Overlaps(p: Pool, t: Table, r: Table, e: nat)
    requires Consistent(p, t) && Sized(r) && e < N && !Active(t, e) && !Free(p, t, t.begin[e], t.size[e])
    requires r.begin == t.begin && r.size == t.size && r.status == t.status[e := 1]
    ensures !Consistent(p, r)
  {
    if Consistent(p, r) {
      assert Active(r, e) && Placed(p, r, e);
      forall i | 0 <= i < N ensures Clear(t, t.begin[e], t.size[e], i) {
        if Active(t, i) {
          assert Active(r, i);
          assert i < e ==> Apart(r, i, e);
          assert e < i ==> Apart(r, e, i);
        }
      }
    }
  }

  lemma OnlyHere(t: Table, callsign: string, e: nat)
    requires Sized(t) && e < N && t.callsign[e] == callsign
    requires forall i | 0 <= i < N && i != e :: t.callsign[i] != callsign
    ensures Existing(t, callsign, N) == e
  {}

  lemma Distinct3()
    ensures "A" != "B" && "B" != "C" && "A" != "C" && "A" != "" && "B" != "" && "C" != ""
  {
    assert "A"[0] != "B"[0] && "B"[0] != "C"[0] && "A"[0] != "C"[0];
    assert |"A"| == |"B"| == |"C"| == 1;
  }

  // The failing family is not empty: three clients, sizes 1, 1 and 2.
  lemma MixedSizesOverlap()
    ensures var p := Pool(10, 4);
            var t1 := Connect(p, EMPTY, "A", 1, 0).0;
            var t2 := Connect(p, t1, "B", 1, 0).0;
            var t3 := Disconnect(Disconnect(t2, "A"), "B");
            var t4 := Connect(p, t3, "C", 2, 0).0;
            Consistent(p, t4) && !Consistent(p, Connect(p, t4, "B", 1, 0).0)
  {
    var p := Pool(10, 4);
    var t2 := TwoClients(p);
    Distinct3();
    OnlyHere(t2, "A", 0);
    OnlyHere(Disconnect(t2, "A"), "B", 1);
    var t3 := Disconnect(Disconnect(t2, "A"), "B");
    ThirdClient(p, t3);
  }

  lemma TwoClients(p: Pool) returns (t2: Table)
    requires p == Pool(10, 4)
    ensures t2 == Grant(Grant(EMPTY, 0, "A", 10, 1, 0), 1, "B", 11, 1, 0)
    ensures t2 == Connect(p, Connect(p, EMPTY, "A", 1, 0).0, "B", 1, 0).0
  {
    Distinct3();
    SearchFirst(p, EMPTY, 1);
    var t1 := Grant(EMPTY, 0, "A", 10, 1, 0);
    assert t1 == Connect(p, EMPTY, "A", 1, 0).0;
    assert Consistent(p, t1) && FirstInactive(t1, 0) == 1;
    SearchOptimal(p, t1, 1);
    assert !Clear(t1, 10, 1, 0);
    assert Free(p, t1, 11, 1) && !Free(p, t1, 10, 1);
    t2 := Connect(p, t1, "B", 1, 0).0;
  }

  lemma ThirdClient(p: Pool, t3: Table)
    requires p == Pool(10, 4) && Sized(t3) && (forall i | 0 <= i < N :: !Active(t3, i))
    requires t3.callsign == ["A", "B", "", "", "", "", ""] && t3.begin[1] == 11 && t3.size[1] == 1
    ensures var t4 := Connect(p, t3, "C", 2, 0).0;
            Consistent(p, t4) && !Consistent(p, Connect(p, t4, "B", 1, 0).0)
  {
    Distinct3();
    SearchFirst(p, t3, 2);
    var t4 := Connect(p, t3, "C", 2, 0).0;
    assert Consistent(p, t3) && Free(p, t3, 10, 2);
    GrantKeeps(p, t3, 0, "C", 10, 2, 0);
    assert t4 == Grant(t3, 0, "C", 10, 2, 0);
    OnlyHere(t4, "B", 1);
    var t5 := Connect(p, t4, "B", 1, 0).0;
    assert Active(t5, 0) && Active(t5, 1) && !Apart(t5, 0, 1);
  }

  // With nobody active the search answers the pool's start.
  lemma SearchFirst(p: Pool, t: Table, req: nat)
    requires Sized(t) && PoolOk(p) && 1 <= req <= p.size && forall i | 0 <= i < N :: !Active(t, i)
    ensures Search(p, t, req, N) == p.start
  {
    assert Consistent(p, t);
    SearchOptimal(p, t, req);
    assert Free(p, t, p.start, req);
  }

  // ----- whole runs -----

  datatype Event =
    | ConnectReq(callsign: string, req: nat, now: nat)
    | DisconnectReq(callsign: string)
    | Timeout(now: nat, limit: nat)

  function Apply(p: Pool, t: Table, e: Event): (r: Table)
    requires Sized(t)
    ensures Sized(r)
  {
    match e
    case ConnectReq(callsign, req, now) => Connect(p, t, callsign, req, now).0
    case DisconnectReq(callsign) => Disconnect(t, callsign)
    case Timeout(now, limit) => Expire(t, now, limit)
  }

  function Run(p: Pool, events: seq<Event>): (t: Table)
    ensures Sized(t)
  {
    if events == [] then EMPTY else Apply(p, Run(p, events[..|events| - 1]), events[|events| - 1])
  }

  // Requests of any sizes keep the ranges apart as long as no reconnection hits a range
  // that has been given away in the meantime.
  predicate NeverBlind(p: Pool, events: seq<Event>) {
    events == []
    || (NeverBlind(p, events[..|events| - 1])
        && Sighted(p, Run(p, events[..|events| - 1]), events[|events| - 1]))
  }

  predicate Sighted(p: Pool, t: Table, e: Event)
    requires Sized(t)
  {
    e.ConnectReq? ==> e.req >= 1 && !BlindReactivation(p, t, e.callsign, e.req)
  }

  lemma {:induction false} RunKeepsApart(p: Pool, events: seq<Event>)
    requires PoolOk(p) && NeverBlind(p, events)
    ensures Consistent(p, Run(p, events))
  {
    if events != [] {
      var before := Run(p, events[..|events| - 1]);
      RunKeepsApart(p, events[..|events| - 1]);
      match events[|events| - 1]
      case ConnectReq(callsign, req, now) => ConnectKeepsApart(p, before, callsign, req, now);
      case DisconnectReq(callsign) => FewerActiveKeeps(p, before, Disconnect(before, callsign));
      case Timeout(now, limit) => FewerActiveKeeps(p, before, Expire(before, now, limit));
    }
  }

  // ----- callsigns, for requests of any sizes -----

  // An entry that has ever been granted carries a callsign.
  predicate Used(t: Table, i: nat)
    requires Sized(t) && i < N
  {
    t.callsign[i] != ""
  }

  // No two entries carry the same one.
  predicate OneEach(t: Table)
    requires Sized(t)
  {
    forall i, j | 0 <= i < j < N && Used(t, i) && Used(t, j) :: t.callsign[i] != t.callsign[j]
  }

  // A callsign is written only into the entry that has it, or into one when no entry has it.
  lemma ConnectKeepsCallsigns(p: Pool, t: Table, callsign: string, req: nat, now: nat)
    requires Sized(t) && OneEach(t)
    ensures OneEach(Connect(p, t, callsign, req, now).0)
  {
    hide Search, Free, FirstInactive;
    var e, r := Existing(t, callsign, N), Connect(p, t, callsign, req, now).0;
    if e < N {
      assert r.callsign == t.callsign;
    } else if r.callsign != t.callsign {
      var id := FirstInactive(t, 0);
      assert r.callsign == t.callsign[id := callsign];
    }
  }

  // Whatever the sizes, and even if ranges come to overlap, no callsign is ever listed twice.
  lemma {:induction false} RunKeepsCallsigns(p: Pool, events: seq<Event>)
    ensures OneEach(Run(p, events))
  {
    hide Connect, Search;
    if events != [] {
      var before := Run(p, events[..|events| - 1]);
      RunKeepsCallsigns(p, events[..|events| - 1]);
      match events[|events| - 1]
      case ConnectReq(callsign, req, now) => ConnectKeepsCallsigns(p, before, callsign, req, now);
      case DisconnectReq(callsign) =>
      case Timeout(now, limit) =>
    }
  }

  // ----- what the client is told, and what becomes of its entry -----

  // All five columns of an entry are what they were.
  predicate Untouched(t: Table, r: Table, i: nat)
    requires Sized(t) && Sized(r) && i < N
  {
    && r.begin[i] == t.begin[i] && r.size[i] == t.size[i] && r.callsign[i] == t.callsign[i]
    && r.status[i] == t.status[i] && r.date[i] == t.date[i]
  }

  // The callsign is listed as connected, with that many addresses.
  predicate Listed(t: Table, callsign: string, req: nat)
    requires Sized(t)
  {
    exists i | 0 <= i < N :: t.callsign[i] == callsign && t.status[i] > 0 && t.size[i] == req
  }

  // The client is acknowledged exactly when it is listed afterwards, and then under the number of
  // its entry, dated now. Nobody else's entry changes.
  lemma AnswerIsKept(p: Pool, t: Table, callsign: string, req: nat, now: nat)
    requires Sized(t) && OneEach(t) && callsign != ""
    ensures var r, answer := Connect(p, t, callsign, req, now).0, Connect(p, t, callsign, req, now).1;
            && (answer.Ack? <==> Listed(r, callsign, req))
            && (answer.Ack? ==> r.callsign[answer.id] == callsign && r.status[answer.id] == 1
                                && r.size[answer.id] == req && r.date[answer.id] == now)
            && (forall i | 0 <= i < N && !(answer.Ack? && i == answer.id) && t.callsign[i] != callsign ::
                  Untouched(t, r, i))
            && (answer.Nack? ==> forall i | 0 <= i < N && t.callsign[i] == callsign ::
                  r.status[i] == 0 && r.begin[i] == t.begin[i] && r.size[i] == t.size[i] && r.callsign[i] == callsign)
  {
    hide Search;
    var e := Existing(t, callsign, N);
    if e < N {
      forall i | 0 <= i < N && i != e ensures t.callsign[i] != callsign {
        assert Used(t, i) ==> t.callsign[i] != t.callsign[e];
      }
    }
    var r, answer := Connect(p, t, callsign, req, now).0, Connect(p, t, callsign, req, now).1;
    if answer.Ack? {
      assert r.callsign[answer.id] == callsign && r.status[answer.id] > 0 && r.size[answer.id] == req;
    } else {
      forall i | 0 <= i < N && r.callsign[i] == callsign ensures r.status[i] == 0 {
        assert t.callsign[i] == callsign;
      }
    }
  }

  // An entry of a known callsign keeps its range on a request of the same size, any other
  // acknowledged client gets the lowest range that is free without its own.
  lemma RangeGranted(p: Pool, t: Table, callsign: string, req: nat, now: nat, i: nat)
    requires Consistent(p, t) && PoolOk(p) && req >= 1 && i < N
    requires Connect(p, t, callsign, req, now).1 == Ack(i)
    ensures var r := Connect(p, t, callsign, req, now).0;
            if t.callsign[i] == callsign && t.size[i] == req && Existing(t, callsign, N) == i
            then r.begin[i] == t.begin[i]
            else var others := t.(status := t.status[i := 0]);
                 Free(p, others, r.begin[i], req) && forall b | Free(p, others, b, req) :: r.begin[i] <= b
  {
    hide Search;
    var e := Existing(t, callsign, N);
    if !(e < N && req == t.size[e]) {
      var others := t.(status := t.status[i := 0]);
      FewerActiveKeeps(p, t, others);
      SearchOptimal(p, others, req);
      if e == N {
        SameActive(p, t, others, i, req);
      }
    }
  }

  // Freeing an inactive entry changes nothing for the search.
  lemma SameActive(p: Pool, t: Table, r: Table, i: nat, req: nat)
    requires Consistent(p, t) && PoolOk(p) && req >= 1 && i < N && !Active(t, i) && r == t.(status := t.status[i := 0])
    ensures Consistent(p, r) && Search(p, t, req, N) == Search(p, r, req, N)
  {
    FewerActiveKeeps(p, t, r);
    SearchOptimal(p, t, req);
    SearchOptimal(p, r, req);
    forall b ensures Free(p, t, b, req) <==> Free(p, r, b, req) {
      assert forall k | 0 <= k < N :: Clear(t, b, req, k) <==> Clear(r, b, req, k);
    }
  }

  // A client is refused as one too many exactly when it is unknown and all seven are connected, and
  // for want of addresses exactly when there was an entry for it but no free range of that size,
  // its own not counted.
  lemma RefusedExactly(p: Pool, t: Table, callsign: string, req: nat, now: nat)
    requires Consistent(p, t) && PoolOk(p) && req >= 1
    ensures var answer, e := Connect(p, t, callsign, req, now).1, Existing(t, callsign, N);
            var known, all := e < N, forall i | 0 <= i < N :: t.status[i] > 0;
            var others := if known then t.(status := t.status[e := 0]) else t;
            && (answer == Nack(3) <==> (forall i | 0 <= i < N :: t.callsign[i] != callsign) && all)
            && (answer == Nack(2) <==> !(known && t.size[e] == req) && (known || !all)
                                       && forall b :: !Free(p, others, b, req))
            && (answer.Nack? ==> answer.reason == 2 || answer.reason == 3)
  {
    hide Search;
    var e := Existing(t, callsign, N);
    var others := if e < N then t.(status := t.status[e := 0]) else t;
    FewerActiveKeeps(p, t, others);
    SearchOptimal(p, others, req);
    var id := FirstInactive(t, 0);
    assert id == N <==> forall i | 0 <= i < N :: t.status[i] > 0 by {
      if id == N { assert forall i | 0 <= i < N :: Active(t, i); } else { assert !Active(t, id); }
    }
  }

  // The client that leaves is no longer connected; everybody else is what they were.
  lemma LeavesExactly(t: Table, callsign: string)
    requires Sized(t) && OneEach(t) && callsign != ""
    ensures var r := Disconnect(t, callsign);
            && (forall i | 0 <= i < N && t.callsign[i] == callsign :: r.status[i] == 0)
            && (forall i | 0 <= i < N && t.callsign[i] != callsign :: Untouched(t, r, i))
            && r.begin == t.begin && r.size == t.size && r.callsign == t.callsign && r.date == t.date
  {
    var e := Existing(t, callsign, N);
    if e < N {
      forall i | 0 <= i < N && i != e ensures t.callsign[i] != callsign {
        assert Used(t, i) ==> t.callsign[i] != t.callsign[e];
      }
    }
  }

  // A client heard of now stays; one last heard of longer ago than the limit is dropped.
  lemma ExpiresExactly(t: Table, now: nat, limit: nat, i: nat)
    requires Sized(t) && i < N
    ensures var r := Expire(t, now, limit);
            && (t.date[i] == now ==> Untouched(t, r, i))
            && (t.status[i] == 1 && (now - t.date[i]) % 0x1_0000_0000 > limit ==> r.status[i] == 0)
            && (t.status[i] != 1 || (now - t.date[i]) % 0x1_0000_0000 <= limit ==> Untouched(t, r, i))
            && r.begin == t.begin && r.size == t.size && r.callsign == t.callsign && r.date == t.date
  {}

  // The address lies in the range of an entry, connected or not.
  predicate Holds(t: Table, ip: nat, i: nat)
    requires Sized(t) && i < N
  {
    t.begin[i] <= ip < (t.begin[i] + t.size[i]) % 0x1_0000_0000
  }

  // An address belongs to the last entry whose range holds it, to 250 if none does.
  lemma {:induction false} LooksUpLast(t: Table, ip: nat, n: nat)
    requires Sized(t) && n <= N
    ensures var i := ClientOf(t, ip, n);
            if i < n then Holds(t, ip, i) && forall j | i < j < n :: !Holds(t, ip, j)
            else i == 250 && forall j | 0 <= j < n :: !Holds(t, ip, j)
  {
    if n > 0 {
      LooksUpLast(t, ip, n - 1);
      assert Holds(t, ip, n - 1) <==> t.begin[n - 1] <= ip < EndOf(t, n - 1) % WORD;
    }
  }

  // The event is about a client with that callsign, last heard of at date.
  predicate Concerns(e: Event, callsign: string, date: nat) {
    match e
    case ConnectReq(c, _, _) => c == callsign
    case DisconnectReq(c) => c == callsign
    case Timeout(now, limit) => (now - date) % 0x1_0000_0000 > limit
  }

  // Between its own requests and before its time is out, a connected client keeps its number and
  // its addresses, whatever the others do.
  lemma {:induction false} StaysConnected(p: Pool, events: seq<Event>, m: nat, n: nat, i: nat)
    requires m <= n <= |events| && i < N && Active(Run(p, events[..m]), i)
    requires forall k | m <= k < n ::
               !Concerns(events[k], Run(p, events[..m]).callsign[i], Run(p, events[..m]).date[i])
    ensures Untouched(Run(p, events[..m]), Run(p, events[..n]), i)
  {
    hide Connect, Disconnect, Expire;
    if m < n {
      StaysConnected(p, events, m, n - 1, i);
      assert events[..n][..n - 1] == events[..n - 1];
      EntryStays(p, Run(p, events[..n - 1]), events[n - 1], i);
    }
  }

  lemma EntryStays(p: Pool, t: Table, e: Event, i: nat)
    requires Sized(t) && i < N && Active(t, i) && !Concerns(e, t.callsign[i], t.date[i])
    ensures Untouched(t, Apply(p, t, e), i)
  {
    hide Search;
    match e
    case ConnectReq(callsign, req, now) =>
      assert FirstInactive(t, 0) != i;
    case DisconnectReq(callsign) =>
    case Timeout(now, limit) => ExpiresExactly(t, now, limit, i);
  }

  // ----- one common request size -----

  // The i-th block of r addresses of the pool.
  function BlockStart(p: Pool, r: nat, i: nat): nat {
    if i == 0 then p.start else BlockStart(p, r, i - 1) + r
  }

  lemma {:induction false} BlocksGrow(p: Pool, r: nat, i: nat, j: nat)
    requires i <= j
    ensures BlockStart(p, r, i) <= BlockStart(p, r, j)
    ensures i < j ==> BlockStart(p, r, i) + r <= BlockStart(p, r, j)
    decreases j
  {
    if i < j {
      BlocksGrow(p, r, i, j - 1);
    }
  }

  // Entry i is untouched, or owns the i-th block for good.
  predicate InPlace(p: Pool, t: Table, r: nat, i: nat)
    requires Sized(t) && i < N
  {
    if Used(t, i) then t.size[i] == r && t.begin[i] == BlockStart(p, r, i) && BlockStart(p, r, i + 1) <= p.End()
    else t.size[i] == 0 && t.status[i] == 0
  }

  predicate Uniform(p: Pool, t: Table, r: nat) {
    && Sized(t)
    && (forall i | 0 <= i < N :: InPlace(p, t, r, i))
    && OneEach(t)
  }

  lemma UniformConsistent(p: Pool, t: Table, r: nat)
    requires Uniform(p, t, r) && r >= 1
    ensures Consistent(p, t)
  {
    forall i | 0 <= i < N && Active(t, i) ensures Placed(p, t, i) {
      assert InPlace(p, t, r, i);
      BlocksGrow(p, r, 0, i);
    }
    forall i, j | 0 <= i < j < N && Active(t, i) && Active(t, j) ensures Apart(t, i, j) {
      assert InPlace(p, t, r, i) && InPlace(p, t, r, j);
      BlocksGrow(p, r, i, j);
    }
  }

  // An address below block k lies in one of the first k blocks.
  lemma {:induction false} BlockOf(p: Pool, r: nat, b: nat, k: nat) returns (j: nat)
    requires p.start <= b < BlockStart(p, r, k)
    ensures j < k && BlockStart(p, r, j) <= b < BlockStart(p, r, j + 1)
  {
    if b >= BlockStart(p, r, k - 1) {
      j := k - 1;
    } else {
      j := BlockOf(p, r, b, k - 1);
    }
  }

  // Nothing is free that starts inside the first k blocks when all their owners are active.
  lemma Occupied(p: Pool, t: Table, r: nat, b: nat, k: nat)
    requires Uniform(p, t, r) && r >= 1 && p.start <= b < BlockStart(p, r, k) && k <= N
    requires forall i | 0 <= i < k :: Active(t, i)
    ensures !Free(p, t, b, r)
  {
    var j := BlockOf(p, r, b, k);
    assert InPlace(p, t, r, j);
    assert !Clear(t, b, r, j);
  }

  // The first inactive entry and the lowest free range always go together.
  lemma SearchMatchesEntry(p: Pool, t: Table, r: nat)
    requires Uniform(p, t, r) && r >= 1 && PoolOk(p) && FirstInactive(t, 0) < N
    ensures var k := FirstInactive(t, 0);
            Search(p, t, r, N) == if BlockStart(p, r, k + 1) <= p.End() then BlockStart(p, r, k) else NONE
  {
    var k := FirstInactive(t, 0);
    var at := BlockStart(p, r, k);
    UniformConsistent(p, t, r);
    SearchOptimal(p, t, r);
    BlocksGrow(p, r, 0, k);
    forall b | Free(p, t, b, r) ensures b >= at {
      if p.start <= b < at {
        Occupied(p, t, r, b, k);
      }
    }
    if BlockStart(p, r, k + 1) <= p.End() {
      forall i | 0 <= i < N ensures Clear(t, at, r, i) {
        assert InPlace(p, t, r, i);
        if i < k { BlocksGrow(p, r, i, k); } else if k < i { BlocksGrow(p, r, k, i); }
      }
      assert Free(p, t, at, r);
    }
  }

  lemma ConnectUniform(p: Pool, t: Table, r: nat, callsign: string, now: nat)
    requires Uniform(p, t, r) && r >= 1 && PoolOk(p) && callsign != ""
    ensures Uniform(p, Connect(p, t, callsign, r, now).0, r)
    // A client that gets an answer gets its own block, and keeps it on every reconnection.
    ensures Connect(p, t, callsign, r, now).1.Ack? ==>
              var t', id := Connect(p, t, callsign, r, now).0, Connect(p, t, callsign, r, now).1.id;
              t'.callsign[id] == callsign && Active(t', id) && t'.begin[id] == BlockStart(p, r, id)
              && (Existing(t, callsign, N) < N ==> id == Existing(t, callsign, N))
  {
    var e := Existing(t, callsign, N);
    var t' := Connect(p, t, callsign, r, now).0;
    var id := if e < N then e else FirstInactive(t, 0);
    if e < N {
      assert InPlace(p, t, r, e);
    } else if id < N {
      SearchMatchesEntry(p, t, r);
    }
    forall i | 0 <= i < N ensures InPlace(p, t', r, i) {
      assert InPlace(p, t, r, i);
    }
  }

  // Every request of a run asks for the same size, under a non-empty callsign.
  predicate SameSize(events: seq<Event>, r: nat) {
    forall e | e in events && e.ConnectReq? :: e.req == r && e.callsign != ""
  }

  lemma {:induction false} RunUniform(p: Pool, events: seq<Event>, r: nat)
    requires PoolOk(p) && r >= 1 && SameSize(events, r)
    ensures Uniform(p, Run(p, events), r)
  {
    if events != [] {
      var before := Run(p, events[..|events| - 1]);
      var last := events[|events| - 1];
      RunUniform(p, events[..|events| - 1], r);
      if last.ConnectReq? {
        assert last in events;
        ConnectUniform(p, before, r, last.callsign, last.now);
      } else {
        var after := Apply(p, before, last);
        forall i | 0 <= i < N ensures InPlace(p, after, r, i) {
          assert InPlace(p, before, r, i);
        }
      }
    }
  }

  // The lookup finds entry i exactly for the addresses of the i-th block once that entry
  // has been granted.
  lemma {:induction false} LookupUniform(p: Pool, t: Table, r: nat, ip: nat, n: nat)
    requires Uniform(p, t, r) && r >= 1 && PoolOk(p) && n <= N
    ensures ClientOf(t, ip, n) < n || ClientOf(t, ip, n) == 250
    ensures forall i | 0 <= i < n ::
              ClientOf(t, ip, n) == i <==> Used(t, i) && BlockStart(p, r, i) <= ip < BlockStart(p, r, i) + r
  {
    hide BlockStart;
    if n > 0 {
      LookupUniform(p, t, r, ip, n - 1);
      LastLookup(p, t, r, ip, n);
      forall i | 0 <= i < n - 1 ensures BlockStart(p, r, i) + r <= BlockStart(p, r, n - 1) {
        BlocksGrow(p, r, i, n - 1);
      }
    }
  }

  // The last entry looked at answers exactly for its own block.
  lemma LastLookup(p: Pool, t: Table, r: nat, ip: nat, n: nat)
    requires Uniform(p, t, r) && r >= 1 && PoolOk(p) && 0 < n <= N
    ensures var b := BlockStart(p, r, n - 1);
            ClientOf(t, ip, n) == if Used(t, n - 1) && b <= ip < b + r then n - 1 else ClientOf(t, ip, n - 1)
  {
    assert InPlace(p, t, r, n - 1);
    BlocksGrow(p, r, 0, n - 1);
  }

  // Whatever the order of connections, timeouts, disconnections and reconnections: active
  // ranges are disjoint, callsigns unique, each client owns one fixed block of the pool,
  // and looking an address up yields exactly the client it was granted to.
  lemma WholeRun(p: Pool, events: seq<Event>, r: nat, ip: nat)
    requires PoolOk(p) && r >= 1 && SameSize(events, r)
    ensures var t := Run(p, events);
            && Consistent(p, t) && Uniform(p, t, r)
            && (ClientOf(t, ip, N) < N || ClientOf(t, ip, N) == 250)
            && forall i | 0 <= i < N ::
                 ClientOf(t, ip, N) == i <==> Used(t, i) && t.begin[i] <= ip < t.begin[i] + t.size[i]
  {
    var t := Run(p, events);
    RunUniform(p, events, r);
    UniformConsistent(p, t, r);
    LookupUniform(p, t, r, ip, N);
    forall i | 0 <= i < N
      ensures ClientOf(t, ip, N) == i <==> Used(t, i) && t.begin[i] <= ip < t.begin[i] + t.size[i]
    {
      assert InPlace(p, t, r, i);
    }
  }

  // ----- the firmware's tables and handlers -----

  class AddressManager {
    const pool: Pool
    var ipBegin: seq<nat>
    var ipSize: seq<nat>
    var callsign: seq<string>
    var status: seq<nat>
    var date: seq<nat>

    function View(): Table
      reads this
    {
      Table(ipBegin, ipSize, callsign, status, date)
    }

    constructor (pool: Pool)
      ensures this.pool == pool && View() == EMPTY
    {
      this.pool := pool;
      ipBegin, ipSize, callsign, status, date := EMPTY.begin, EMPTY.size, EMPTY.callsign, EMPTY.status, EMPTY.date;
    }

    // The inner loop of the range search.
    method NextAllocated(cur: nat) returns (next: nat)
      requires Sized(View())
      ensures next == NextFrom(pool, View(), cur, N)
    {
      next := pool.start + pool.size;
      for j := 0 to N
        invariant next == NextFrom(pool, View(), cur, j)
      {
        if status[j] > 0 && ipBegin[j] >= cur && ipBegin[j] < next {
          next := ipBegin[j];
        }
      }
    }

    // signaling_lookfor_IP_range
    method LookforIpRange(req: nat) returns (answer: nat)
      requires Sized(View())
      ensures answer == Search(pool, View(), req, N)
    {
      answer := NONE;
      var current := pool.start;
      var next := NextAllocated(current);
      if (next - current) % WORD >= req {
        answer := current;
      }
      for i := 0 to N
        invariant answer == Search(pool, View(), req, i)
      {
        if status[i] > 0 {
          current := (ipBegin[i] + ipSize[i]) % WORD;
          if current < answer {
            next := NextAllocated(current);
            if (next - current) % WORD >= req {
              answer := current;
            }
          }
        }
      }
    }

    // The search for an entry with the client's callsign.
    method LookforCallsign(client: string) returns (entry: nat)
      requires Sized(View())
      ensures entry == Existing(View(), client, N)
    {
      entry := N;
      for i := 0 to N
        invariant entry == if Existing(View(), client, i) < i then Existing(View(), client, i) else N
      {
        if client == callsign[i] {
          entry := i;
        }
      }
    }

    // signaling_connect_req_process, up to the answer that is sent.
    method ConnectReqProcess(client: string, req: nat, now: nat) returns (answer: Answer)
      requires Sized(View())
      modifies this
      ensures Sized(View()) && (View(), answer) == Connect(pool, old(View()), client, req, now)
    {
      var entry := LookforCallsign(client);
      answer := Nack(0);
      if entry < N && req == ipSize[entry] {
        status, date := status[entry := 1], date[entry := now];
        answer := Ack(entry);
      } else if entry < N {
        status := status[entry := 0];
        var proposed := LookforIpRange(req);
        if proposed != NONE {
          status, ipBegin, ipSize := status[entry := 1], ipBegin[entry := proposed], ipSize[entry := req];
          callsign, date := callsign[entry := client], date[entry := now];
          answer := Ack(entry);
        } else {
          answer := Nack(2);
        }
      } else {
        var id := N;
        for i := N downto 0
          invariant id == FirstInactive(View(), i)
        {
          if status[i] <= 0 {
            id := i;
          }
        }
        if id == N {
          answer := Nack(3);
        } else {
          var proposed := LookforIpRange(req);
          if proposed != NONE {
            status, ipBegin, ipSize := status[id := 1], ipBegin[id := proposed], ipSize[id := req];
            callsign, date := callsign[id := client], date[id := now];
            answer := Ack(id);
          } else {
            answer := Nack(2);
          }
        }
      }
    }

    // signaling_disconnect_req_process
    method DisconnectReqProcess(client: string)
      requires Sized(View())
      modifies `status
      ensures View() == Disconnect(old(View()), client)
    {
      var entry := LookforCallsign(client);
      if entry < N {
        status := status[entry := 0];
      }
    }

    // The master's part of signaling_periodic_call.
    method ExpireSilent(now: nat, limit: nat)
      requires Sized(View())
      modifies `status
      ensures View() == Expire(old(View()), now, limit)
    {
      ghost var before := View();
      for i := 0 to N
        invariant |status| == N
        invariant forall k | 0 <= k < N ::
                    status[k] == if k < i && Silent(before, k, now, limit) then 0 else before.status[k]
      {
        if status[i] == 1 && (now - date[i]) % WORD > limit {
          status := status[i := 0];
        }
      }
      assert status == Expire(before, now, limit).status;
    }

    // lookfor_client_ID_from_IP
    method LookforClientId(ip: nat) returns (found: nat)
      requires Sized(View())
      ensures found == ClientOf(View(), ip, N)
    {
      found := 250;
      for i := 0 to N
        invariant found == ClientOf(View(), ip, i)
      {
        var last := (ipBegin[i] + ipSize[i]) % WORD;
        if ip >= ipBegin[i] && ip < last {
          found := i;
        }
      }
    }
  }
}
