// Packing signalling entries into frames and walking the frames
// (source/signaling.cpp:36-112, 424-432, 476-532).
module SignalFrames {
  import opened Bytes
  import Fec
  import opened Link
  import opened TxQueue
  import opened Transmitter
  import opened Reassembly
  import Signaling

  // An entry as raw bytes: type, length of the rest, rest. The builders' entries are at
  // most 61 bytes long.
  predicate IsEntry(b: seq<byte>) {
    2 <= |b| <= 61 && |b| == 2 + b[1] as nat && b[0] != 0xFF
  }

  predicate AllEntries(es: seq<seq<byte>>) {
    forall e | e in es :: IsEntry(e)
  }

  // ----- the packer -----

  // The entries of a pushed frame, and whether the queue took it.
  datatype Group = Group(entries: seq<seq<byte>>, queued: bool)

  // The entries of the frame being filled, and the frames already pushed.
  datatype Packer = Packer(filling: bool, current: seq<seq<byte>>, closed: seq<Group>)

  function Point(pk: Packer): nat {
    if pk.filling then 2 + |Flat(pk.current)| else 0
  }

  predicate Fitting(g: Group) {
    AllEntries(g.entries) && 2 + |Flat(g.entries)| < 248
  }

  predicate Sane(pk: Packer) {
    && AllEntries(pk.current) && Point(pk) < 248 && (!pk.filling ==> pk.current == [])
    && forall g | g in pk.closed :: Fitting(g)
  }

  // room says whether the queue takes a frame.
  function Push(pk: Packer, room: bool): Packer {
    Packer(false, [], pk.closed + [Group(pk.current, room)])
  }

  predicate Overflows(pk: Packer, e: seq<byte>) {
    Point(pk.(filling := true)) + |e| >= 248
  }

  function Add(pk: Packer, e: seq<byte>, room: bool): Packer {
    if Overflows(pk, e) then Push(pk, room).(filling := true, current := [e])
    else pk.(filling := true, current := pk.current + [e])
  }

  function JoinGroups(gs: seq<Group>): seq<seq<byte>> {
    if gs == [] then [] else JoinGroups(gs[..|gs| - 1]) + gs[|gs| - 1].entries
  }

  // The frames that the queue took.
  function Kept(gs: seq<Group>): seq<Group> {
    if gs == [] then []
    else Kept(gs[..|gs| - 1]) + (if gs[|gs| - 1].queued then [gs[|gs| - 1]] else [])
  }

  // Everything added so far, in order.
  function Added(pk: Packer): seq<seq<byte>> {
    JoinGroups(pk.closed) + pk.current
  }

  lemma JoinPushed(gs: seq<Group>, g: Group)
    ensures JoinGroups(gs + [g]) == JoinGroups(gs) + g.entries
    ensures Kept(gs + [g]) == Kept(gs) + if g.queued then [g] else []
  {
    assert (gs + [g])[..|gs|] == gs;
  }

  lemma {:induction false} KeptMembers(gs: seq<Group>)
    ensures forall g | g in Kept(gs) :: g in gs && g.queued
    ensures (forall g | g in gs :: g.queued) ==> Kept(gs) == gs
  {
    if gs != [] {
      KeptMembers(gs[..|gs| - 1]);
      assert gs == gs[..|gs| - 1] + [gs[|gs| - 1]];
    }
  }

  lemma PushKeeps(pk: Packer, room: bool)
    requires Sane(pk)
    ensures Sane(Push(pk, room)) && Added(Push(pk, room)) == Added(pk)
  {
    JoinPushed(pk.closed, Group(pk.current, room));
    assert Flat([]) == [];
  }

  lemma AddKeeps(pk: Packer, e: seq<byte>, room: bool)
    requires Sane(pk) && IsEntry(e)
    ensures Sane(Add(pk, e, room)) && Added(Add(pk, e, room)) == Added(pk) + [e]
  {
    FlatOne(e);
    if Overflows(pk, e) {
      PushKeeps(pk, room);
    } else {
      FlatAppend(pk.current, [e]);
      assert JoinGroups(pk.closed) + (pk.current + [e]) == (JoinGroups(pk.closed) + pk.current) + [e];
    }
  }

  // ----- a run of the packer -----

  datatype Op = AddOp(entry: seq<byte>, room: bool) | PushOp(room: bool)

  function Run(ops: seq<Op>): Packer {
    if ops == [] then Packer(false, [], [])
    else
      var before := Run(ops[..|ops| - 1]);
      match ops[|ops| - 1]
      case AddOp(e, room) => Add(before, e, room)
      case PushOp(room) => if before.filling then Push(before, room) else before
  }

  function EntriesOf(ops: seq<Op>): seq<seq<byte>> {
    if ops == [] then []
    else EntriesOf(ops[..|ops| - 1]) + (if ops[|ops| - 1].AddOp? then [ops[|ops| - 1].entry] else [])
  }

  lemma {:induction false} RunKeepsOrder(ops: seq<Op>)
    requires forall op | op in ops && op.AddOp? :: IsEntry(op.entry)
    ensures Sane(Run(ops)) && Added(Run(ops)) == EntriesOf(ops)
  {
    if ops == [] {
      assert Flat([]) == [];
    } else {
      var n := |ops| - 1;
      RunKeepsOrder(ops[..n]);
      match ops[n]
      case AddOp(e, room) =>
        assert ops[n] in ops;
        AddKeeps(Run(ops[..n]), e, room);
      case PushOp(room) =>
        PushKeeps(Run(ops[..n]), room);
    }
  }

  // ----- frames -----

  // Address and protocol, the entries, the end mark with its zero length.
  function Content(addr: byte, g: seq<seq<byte>>): seq<byte> {
    [addr, 0x1E] + Flat(g) + [0xFF, 0x00]
  }

  // One entry on the air, and when the next one opens a new frame: behind 247 bytes.
  lemma FrameOnAir(addr: byte, e: seq<byte>)
    ensures Content(addr, [e]) == [addr, 0x1E] + e + [0xFF, 0x00]
  {
    FlatOne(e);
  }

  lemma NewFrame(pk: Packer, e: seq<byte>)
    requires Sane(pk)
    ensures Overflows(pk, e) <==> 2 + (if pk.filling then |Flat(pk.current)| else 0) + |e| > 247
  {
    assert Flat([]) == [];
  }

  lemma ContentGrows(addr: byte, g: seq<seq<byte>>, e: seq<byte>)
    ensures |Flat(g + [e])| == |Flat(g)| + |e|
    ensures [addr, 0x1E] + Flat(g + [e]) == ([addr, 0x1E] + Flat(g)) + e
  {
    FlatOne(e);
    FlatAppend(g, [e]);
  }

  // A frame message begins with the content; short ones are sent as 69 bytes.
  predicate IsFrame(msg: seq<byte>, addr: byte, g: seq<seq<byte>>) {
    |Content(addr, g)| <= |msg| && msg[..|Content(addr, g)|] == Content(addr, g)
  }

  // ----- the walk -----

  function Slice(data: seq<byte>, a: nat, b: nat): seq<byte>
    requires a <= b && a <= |data|
  {
    data[a..if b < |data| then b else |data|]
  }

  // The fields met from pos on, up to the end mark or the end of the data.
  function Walk(data: seq<byte>, pos: nat, size: nat): seq<seq<byte>>
    requires pos + 1 < |data| && size + 1 <= |data|
    decreases |data| - pos
  {
    if data[pos] == 0xFF then []
    else
      var next := pos + 2 + data[pos + 1] as nat;
      [Slice(data, pos, next)] + (if next < size then Walk(data, next, size) else [])
  }

  // What is still to be seen when the loop stands at pos.
  function Rest(data: seq<byte>, pos: nat, size: nat, going: bool): seq<seq<byte>>
    requires going ==> pos + 1 < |data| && size + 1 <= |data|
  {
    if going then Walk(data, pos, size) else []
  }

  lemma OneField(data: seq<byte>, pos: nat, size: nat, seen: seq<seq<byte>>)
    requires pos + 1 < |data| && size + 1 <= |data|
    ensures var next, more := pos + 2 + data[pos + 1] as nat, data[pos] != 0xFF;
            seen + Rest(data, pos, size, true)
            == (if more then seen + [Slice(data, pos, next)] else seen) + Rest(data, next, size, more && next < size)
  {}

  lemma NothingLeft(data: seq<byte>, pos: nat, size: nat, seen: seq<seq<byte>>)
    ensures seen + Rest(data, pos, size, false) == seen
  {}

  // One field of the loop below.
  method Field(data: seq<byte>, pos: nat, size: nat, before: seq<seq<byte>>)
    returns (next: nat, going: bool, seen: seq<seq<byte>>)
    requires pos + 1 < |data| && size + 1 <= |data|
    ensures pos < next && (going ==> next + 1 < |data|)
    ensures seen + Rest(data, next, size, going) == before + Rest(data, pos, size, true)
  {
    hide Walk, Slice, Rest;
    OneField(data, pos, size, before);
    var fieldType := data[pos];
    next := pos + 2 + data[pos + 1] as nat;
    seen := if fieldType != 0xFF then before + [Slice(data, pos, next)] else before;
    going := fieldType != 0xFF && next < size;
  }

  // The loop of signaling_frame_exploitation: the fields its handlers get to see.
  method FrameExploitation(data: seq<byte>, size: nat) returns (seen: seq<seq<byte>>)
    requires 3 < |data| && size + 1 <= |data|
    ensures seen == Walk(data, 2, size)
  {
    seen := [];
    var pos: nat := 2;
    var going := true;
    while going
      invariant going ==> pos + 1 < |data|
      invariant seen + Rest(data, pos, size, going) == Walk(data, 2, size)
      decreases going, |data| - pos
    {
      pos, going, seen := Field(data, pos, size, seen);
    }
    NothingLeft(data, pos, size, seen);
  }

  // A walk that starts at the entries es, followed by the end mark, sees exactly them.
  lemma {:induction false} WalkSees(data: seq<byte>, pos: nat, size: nat, es: seq<seq<byte>>)
    requires AllEntries(es) && size + 1 <= |data|
    requires pos + |Flat(es)| + 2 <= |data| && pos + |Flat(es)| < size
    requires data[pos..pos + (|Flat(es)| + 2)] == Flat(es) + [0xFF, 0x00]
    ensures Walk(data, pos, size) == es
    decreases |es|
  {
    hide Walk, Slice;
    if es == [] {
      assert Flat(es) == [] && data[pos] == data[pos..pos + (|Flat(es)| + 2)][0] == 0xFF;
      WalkStops(data, pos, size);
    } else {
      var e, rest := es[0], es[1..];
      assert IsEntry(e) && Flat(es) == e + Flat(rest);
      assert Flat(es) + [0xFF, 0x00] == e + (Flat(rest) + [0xFF, 0x00]);
      SubSlices(data, pos, |e|, |Flat(rest)| + 2, e, Flat(rest) + [0xFF, 0x00]);
      FieldAt(data, pos, e);
      WalkOne(data, pos, size);
      WalkSees(data, pos + |e|, size, rest);
      assert [e] + rest == es;
    }
  }

  lemma WalkStops(data: seq<byte>, pos: nat, size: nat)
    requires pos + 1 < |data| && size + 1 <= |data| && data[pos] == 0xFF
    ensures Walk(data, pos, size) == []
  {}

  // Without an end mark the walk ends with the message.
  lemma {:induction false} WalkToTheEnd(data: seq<byte>, pos: nat, size: nat, es: seq<seq<byte>>)
    requires AllEntries(es) && es != [] && size + 1 <= |data|
    requires pos + |Flat(es)| == size && data[pos..size] == Flat(es)
    ensures pos + 1 < |data| && Walk(data, pos, size) == es
    decreases |es|
  {
    hide Walk, Slice;
    var e, rest := es[0], es[1..];
    assert IsEntry(e) && Flat(es) == e + Flat(rest);
    SubSlices(data, pos, |e|, |Flat(rest)|, e, Flat(rest));
    FieldAt(data, pos, e);
    WalkOne(data, pos, size);
    if rest == [] {
      assert Flat(rest) == [] && es == [e];
    } else {
      assert IsEntry(rest[0]);
      WalkToTheEnd(data, pos + |e|, size, rest);
      assert [e] + rest == es;
    }
  }

  lemma FieldAt(data: seq<byte>, pos: nat, e: seq<byte>)
    requires IsEntry(e) && pos + |e| <= |data| && data[pos..pos + |e|] == e
    ensures data[pos] != 0xFF && pos + 2 + data[pos + 1] as nat == pos + |e|
    ensures Slice(data, pos, pos + |e|) == e
  {
    assert data[pos] == data[pos..pos + |e|][0] && data[pos + 1] == data[pos..pos + |e|][1];
  }

  lemma WalkOne(data: seq<byte>, pos: nat, size: nat)
    requires pos + 1 < |data| && size + 1 <= |data| && data[pos] != 0xFF
    ensures var next := pos + 2 + data[pos + 1] as nat;
            Walk(data, pos, size) == [Slice(data, pos, next)] + (if next < size then Walk(data, next, size) else [])
  {}

  lemma SubSlices(data: seq<byte>, pos: nat, n: nat, m: nat, x: seq<byte>, y: seq<byte>)
    requires pos + n + m <= |data| && |x| == n && |y| == m && data[pos..pos + n + m] == x + y
    ensures data[pos..pos + n] == x && data[pos + n..pos + n + m] == y
  {
    assert data[pos..pos + n] == data[pos..pos + n + m][..n];
    assert data[pos + n..pos + n + m] == data[pos..pos + n + m][n..];
  }

  // Reading a frame message back yields the entries it was filled with.
  lemma FrameRoundTrip(msg: seq<byte>, data: seq<byte>, addr: byte, g: seq<seq<byte>>)
    requires AllEntries(g) && IsFrame(msg, addr, g)
    requires |data| > |msg| && data[..|msg|] == msg
    ensures Walk(data, 2, |msg|) == g
  {
    var body := Flat(g) + [0xFF, 0x00];
    assert Content(addr, g) == [addr, 0x1E] + body && |body| == |Flat(g)| + 2;
    PrefixSlices(data, msg, [addr, 0x1E], body);
    WalkSees(data, 2, |msg|, g);
  }

  lemma PrefixSlices(data: seq<byte>, msg: seq<byte>, x: seq<byte>, y: seq<byte>)
    requires |x| + |y| <= |msg| <= |data| && data[..|msg|] == msg && msg[..|x| + |y|] == x + y
    ensures data[|x|..|x| + |y|] == y
  {
    assert data[|x|..|x| + |y|] == data[..|msg|][..|x| + |y|][|x|..];
  }

  // ----- any run of entries comes through -----

  // A frame of the queue, the record it became, and the receive buffer after decoding.
  datatype Delivery = Delivery(frame: Frame, rec: seq<byte>, k: nat, data: seq<byte>, size: nat)

  // The frame carries the message, and the record is that frame with repairable damage.
  predicate Delivered(d: Delivery, sent: Sent) {
    && Sendable(sent) && Carries(d.frame, Wire(sent)) && Received(d.rec, d.frame, d.k)
    && d.size == |Fec.Decode(d.rec[6..])| < |d.data| && d.data[..d.size] == Fec.Decode(d.rec[6..])
  }

  lemma ThroughDecodes(d: Delivery, sent: Sent, addr: byte, g: seq<seq<byte>>)
    requires AllEntries(g) && IsFrame(sent.msg, addr, g) && Delivered(d, sent)
    ensures 3 < |d.data| && d.size + 1 <= |d.data| && Walk(d.data, 2, d.size) == g
  {
    ReceivedDecodes(d.rec, d.frame, sent, d.k);
    FrameRoundTrip(sent.msg, d.data, addr, g);
  }

  // The messages of the frames that the queue took.
  predicate Messages(sents: seq<Sent>, addr: byte, gs: seq<Group>) {
    |sents| == |gs| && forall i | 0 <= i < |gs| :: IsFrame(sents[i].msg, addr, gs[i].entries)
  }

  // One more group is closed: its message is added unless the queue refused it.
  lemma MessagesMore(sents: seq<Sent>, addr: byte, closed: seq<Group>, more: seq<Sent>)
    requires closed != [] && Messages(sents, addr, Kept(closed[..|closed| - 1]))
    requires var g := closed[|closed| - 1];
             if g.queued then |more| == 1 && IsFrame(more[0].msg, addr, g.entries) else more == []
    ensures Messages(sents + more, addr, Kept(closed))
  {}

  predicate Readable(ds: seq<Delivery>) {
    forall i | 0 <= i < |ds| :: 3 < |ds[i].data| && ds[i].size + 1 <= |ds[i].data|
  }

  // What the receiver's handlers see of the first n frames.
  function SeenIn(ds: seq<Delivery>, n: nat): seq<seq<byte>>
    requires n <= |ds| && Readable(ds)
  {
    if n == 0 then [] else SeenIn(ds, n - 1) + Walk(ds[n - 1].data, 2, ds[n - 1].size)
  }

  lemma {:induction false} SeenIsJoined(ds: seq<Delivery>, gs: seq<Group>, n: nat)
    requires n <= |ds| == |gs| && Readable(ds)
    requires forall i | 0 <= i < |gs| :: Walk(ds[i].data, 2, ds[i].size) == gs[i].entries
    ensures SeenIn(ds, n) == JoinGroups(gs[..n])
  {
    if n > 0 {
      SeenIsJoined(ds, gs, n - 1);
      assert gs[..n][..n - 1] == gs[..n - 1];
    }
  }

  // Any sequence of additions and pushes, whatever the queue refused: reading the frames it took
  // yields exactly their entries, in order, and all entries ever added when none was refused and
  // the last one has been pushed.
  lemma SignalingRoundTrip(ops: seq<Op>, addr: byte, sents: seq<Sent>, ds: seq<Delivery>)
    requires forall op | op in ops && op.AddOp? :: IsEntry(op.entry)
    requires Messages(sents, addr, Kept(Run(ops).closed))
    requires |ds| == |sents| && forall i | 0 <= i < |ds| :: Delivered(ds[i], sents[i])
    ensures Readable(ds) && SeenIn(ds, |ds|) == JoinGroups(Kept(Run(ops).closed))
    ensures (forall g | g in Run(ops).closed :: g.queued) && !Run(ops).filling ==> SeenIn(ds, |ds|) == EntriesOf(ops)
  {
    hide Delivered, IsFrame, Walk;
    RunKeepsOrder(ops);
    var gs := Kept(Run(ops).closed);
    KeptMembers(Run(ops).closed);
    forall i | 0 <= i < |gs|
      ensures 3 < |ds[i].data| && ds[i].size + 1 <= |ds[i].data| && Walk(ds[i].data, 2, ds[i].size) == gs[i].entries
    {
      assert gs[i] in gs && Fitting(gs[i]);
      ThroughDecodes(ds[i], sents[i], addr, gs[i].entries);
    }
    SeenIsJoined(ds, gs, |gs|);
    assert gs[..|gs|] == gs;
    assert JoinGroups(gs) + [] == JoinGroups(gs);
  }

  // ----- the builders' entries -----

  // An entry built in a buffer that held f and g before and added, or a push.
  datatype Call =
    | AddCall(entry: Signaling.Entry, f: Signaling.Field, g: Signaling.Field, room: bool)
    | PushCall(room: bool)

  function OpOf(c: Call): Op {
    match c
    case AddCall(e, f, g, room) => AddOp(Signaling.EntryBytes(e, f, g), room)
    case PushCall(room) => PushOp(room)
  }

  function OpsOf(calls: seq<Call>): (ops: seq<Op>)
    ensures |ops| == |calls|
  {
    if calls == [] then [] else OpsOf(calls[..|calls| - 1]) + [OpOf(calls[|calls| - 1])]
  }

  // The entries given to the builders, in order.
  function Given(calls: seq<Call>): seq<Option<Signaling.Entry>> {
    if calls == [] then []
    else
      var c := calls[|calls| - 1];
      Given(calls[..|calls| - 1]) + (if c.AddCall? then [Some(c.entry)] else [])
  }

  predicate AllFit(calls: seq<Call>) {
    forall c | c in calls && c.AddCall? :: Signaling.Fits(c.entry)
  }

  // What the handlers make of a field.
  function Reading(field: seq<byte>): Option<Signaling.Entry> {
    if |field| >= 2 then Signaling.Read(field) else None
  }

  function Understood(fields: seq<seq<byte>>): (es: seq<Option<Signaling.Entry>>)
    ensures |es| == |fields|
  {
    if fields == [] then []
    else Understood(fields[..|fields| - 1]) + [Reading(fields[|fields| - 1])]
  }

  lemma UnderstoodMore(fields: seq<seq<byte>>, field: seq<byte>)
    ensures Understood(fields + [field]) == Understood(fields) + [Reading(field)]
  {
    assert (fields + [field])[..|fields|] == fields;
  }

  lemma {:induction false} GivenIsUnderstood(calls: seq<Call>)
    requires AllFit(calls)
    ensures forall op | op in OpsOf(calls) && op.AddOp? :: IsEntry(op.entry)
    ensures Understood(EntriesOf(OpsOf(calls))) == Given(calls)
  {
    hide Signaling.Read, Signaling.EntryBytes, Signaling.Fits, Understood, IsEntry;
    if calls == [] {
      assert Understood([]) == [];
    } else {
      var c, before := calls[|calls| - 1], calls[..|calls| - 1];
      GivenIsUnderstood(before);
      EntriesMore(OpsOf(before), OpOf(c));
      if c.AddCall? {
        assert c in calls;
        CallUnderstood(c);
        UnderstoodMore(EntriesOf(OpsOf(before)), OpOf(c).entry);
      }
    }
  }

  lemma EntriesMore(ops: seq<Op>, op: Op)
    ensures EntriesOf(ops + [op]) == if op.AddOp? then EntriesOf(ops) + [op.entry] else EntriesOf(ops)
  {
    assert (ops + [op])[..|ops|] == ops;
  }

  lemma CallUnderstood(c: Call)
    requires c.AddCall? && Signaling.Fits(c.entry)
    ensures IsEntry(OpOf(c).entry) && Reading(OpOf(c).entry) == Some(c.entry)
  {
    hide Signaling.Read, Signaling.Fits, Signaling.Body;
    Signaling.EntryRoundTrip(c.entry, c.f, c.g);
  }

  // The elements marked in mask.
  function Pick<T>(xs: seq<T>, mask: seq<bool>): seq<T>
    requires |xs| == |mask|
  {
    if xs == [] then []
    else
      var n := |xs| - 1;
      Pick(xs[..n], mask[..n]) + (if mask[n] then [xs[n]] else [])
  }

  // Which of the entries added lie in frames that the queue took.
  function Mask(gs: seq<Group>): (m: seq<bool>)
    ensures |m| == |JoinGroups(gs)|
  {
    if gs == [] then []
    else
      var g := gs[|gs| - 1];
      Mask(gs[..|gs| - 1]) + seq(|g.entries|, i => g.queued)
  }

  lemma {:induction false} PickMore<T>(xs: seq<T>, mask: seq<bool>, ys: seq<T>, taken: bool)
    requires |xs| == |mask|
    ensures Pick(xs + ys, mask + seq(|ys|, i => taken)) == Pick(xs, mask) + (if taken then ys else [])
  {
    var ms := seq(|ys|, i => taken);
    if ys == [] {
      assert xs + ys == xs && mask + ms == mask;
    } else {
      var n := |ys| - 1;
      PickMore(xs, mask, ys[..n], taken);
      assert (xs + ys)[..|xs| + n] == xs + ys[..n];
      assert (mask + ms)[..|xs| + n] == mask + seq(n, i => taken);
      assert ys == ys[..n] + [ys[n]];
    }
  }

  lemma {:induction false} KeptIsPicked(gs: seq<Group>)
    ensures JoinGroups(Kept(gs)) == Pick(JoinGroups(gs), Mask(gs))
  {
    if gs != [] {
      var g, before := gs[|gs| - 1], gs[..|gs| - 1];
      KeptIsPicked(before);
      PickMore(JoinGroups(before), Mask(before), g.entries, g.queued);
      if g.queued {
        JoinPushed(Kept(before), g);
      } else {
        assert Kept(before) + [] == Kept(before);
      }
    }
  }

  lemma {:induction false} UnderstoodPick(fields: seq<seq<byte>>, mask: seq<bool>)
    requires |fields| == |mask|
    ensures Understood(Pick(fields, mask)) == Pick(Understood(fields), mask)
  {
    hide Reading;
    if fields != [] {
      var n := |fields| - 1;
      var before := Pick(fields[..n], mask[..n]);
      UnderstoodPick(fields[..n], mask[..n]);
      assert Understood(fields)[..n] == Understood(fields[..n]);
      if mask[n] {
        UnderstoodMore(before, fields[n]);
      } else {
        assert before + [] == before;
      }
    }
  }

  lemma {:induction false} UnderstoodPrefix(fields: seq<seq<byte>>, n: nat)
    requires n <= |fields|
    ensures Understood(fields[..n]) == Understood(fields)[..n]
  {
    hide Reading;
    if n < |fields| {
      var m := |fields| - 1;
      UnderstoodPrefix(fields[..m], n);
      assert fields[..m][..n] == fields[..n];
    } else {
      assert fields[..n] == fields;
    }
  }

  // From the builders to the handlers: whatever is built, added and pushed, the handlers get the
  // entries of the frames that the queue took, with all their fields and in their order, and all of
  // them when none was refused and the last frame has been pushed.
  lemma EntriesRoundTrip(calls: seq<Call>, addr: byte, sents: seq<Sent>, ds: seq<Delivery>)
    requires AllFit(calls) && Messages(sents, addr, Kept(Run(OpsOf(calls)).closed))
    requires |ds| == |sents| && forall i | 0 <= i < |ds| :: Delivered(ds[i], sents[i])
    ensures Readable(ds)
    ensures var closed, seen := Run(OpsOf(calls)).closed, SeenIn(ds, |ds|);
            && |Mask(closed)| <= |Given(calls)|
            && Understood(seen) == Pick(Given(calls)[..|Mask(closed)|], Mask(closed))
            && ((forall g | g in closed :: g.queued) && !Run(OpsOf(calls)).filling ==> Understood(seen) == Given(calls))
  {
    hide Delivered, Messages, Walk, Understood, IsEntry, AllFit, SeenIn, Kept, Pick, Readable;
    var ops := OpsOf(calls);
    var closed := Run(ops).closed;
    GivenIsUnderstood(calls);
    RunKeepsOrder(ops);
    SignalingRoundTrip(ops, addr, sents, ds);
    KeptIsPicked(closed);
    UnderstoodPick(JoinGroups(closed), Mask(closed));
    UnderstoodPrefix(EntriesOf(ops), |JoinGroups(closed)|);
    assert EntriesOf(ops)[..|JoinGroups(closed)|] == JoinGroups(closed);
  }

  // ----- the firmware's buffer -----

  class SignalBuffer {
    const raw: array<byte>
    const sender: Sender
    const address: byte
    var point: nat
    ghost var view: Packer
    // The messages queued so far, one for each frame that was not refused.
    ghost var sents: seq<Sent>

    ghost predicate Valid()
      reads this, raw, sender, sender.intern, sender.intern.cells, sender.ext, sender.ext.cells
    {
      && raw.Length == 260 && raw != sender.rframe && sender.Valid()
      && Sane(view) && point == Point(view) && Messages(sents, address, Kept(view.closed))
      && (view.filling ==> raw[..point] == [address, 0x1E] + Flat(view.current))
    }

    // TX_FIFO_full_global(0) would be false.
    ghost predicate HasRoom()
      reads sender, sender.intern, sender.ext
    {
      sender.Target().wr - sender.Target().rd <= (if sender.isSramExt then 1000 else 120)
    }

    ghost function Log(): seq<Frame>
      reads sender, sender.intern, sender.ext
    {
      sender.Target().Log()
    }

    constructor (sender: Sender, address: byte)
      requires sender.Valid()
      ensures Valid() && fresh(raw) && view == Packer(false, [], []) && sents == []
      ensures this.sender == sender && this.address == address
    {
      raw := new byte[260](i => 0);
      this.sender := sender;
      this.address := address;
      point := 0;
      view := Packer(false, [], []);
      sents := [];
    }

    // signaling_frame_init, and the copy of one entry behind what is there.
    method InitIfEmpty()
      requires Valid()
      modifies raw, `point, `view
      ensures Valid() && view == old(view).(filling := true)
    {
      if point == 0 {
        raw[0] := address;
        raw[1] := 0x1E;
        point := 2;
        view := view.(filling := true);
        assert raw[..2] == [address, 0x1E] + Flat([]);
      }
    }

    method Append(e: seq<byte>)
      requires Valid() && view.filling && IsEntry(e) && point + |e| < 248
      modifies raw, `point, `view
      ensures Valid() && view == old(view).(current := old(view.current) + [e])
    {
      CopyEntry(e);
      AddKeeps(view, e, true);
      ContentGrows(address, view.current, e);
      point := point + |e|;
      view := view.(current := view.current + [e]);
    }

    // memcpy behind the bytes already there.
    method CopyEntry(e: seq<byte>)
      requires point + |e| <= raw.Length
      modifies raw
      ensures raw[..point + |e|] == old(raw[..point]) + e
    {
      forall i | 0 <= i < |e| {
        raw[point + i] := e[i];
      }
    }

    // The end mark, and the message size.
    method Close() returns (size: nat)
      requires Valid() && view.filling
      modifies raw, `point
      ensures sender.Valid() && raw.Length == 260
      ensures 69 <= size <= 249 && size == Max(69, |Content(address, view.current)|)
      ensures raw[..|Content(address, view.current)|] == Content(address, view.current)
    {
      ghost var body := raw[..point];
      raw[point] := 0xFF;
      raw[point + 1] := 0x00;
      point := point + 2;
      assert raw[..point] == body + [0xFF, 0x00];
      assert body + [0xFF, 0x00] == Content(address, view.current);
      size := point;
      if size < 69 {
        size := 69;
      }
    }

    // The queueing of a closed frame, unless the queue is full.
    method QueueClosed(size: nat) returns (queued: bool, ghost sent: Sent)
      requires sender.Valid() && raw.Length == 260 && raw != sender.rframe
      requires 69 <= size <= 249 && |Content(address, view.current)| <= size
      requires raw[..|Content(address, view.current)|] == Content(address, view.current)
      modifies sender.rframe, sender.intern, sender.intern.cells, sender.ext, sender.ext.cells
      ensures sender.Valid()
      ensures queued <==> old(sender.Target().wr - sender.Target().rd) <= (if sender.isSramExt then 1000 else 120)
      ensures !queued ==> sender.Target().Log() == old(sender.Target().Log())
      ensures queued ==> Queued(old(sender.Target().Log()), sender.Target().Log(), [sent])
                         && IsFrame(sent.msg, address, view.current)
    {
      hide Wire, Fec.Encode, Carries, TxQueue.Cells;
      var full := sender.FullGlobal(0);
      queued := !full;
      sent := Sent(0, 0, []);
      if !full {
        var timer: byte := *;
        ghost var log := sender.Target().Log();
        ghost var content := Content(address, view.current);
        ghost var bytes := raw[..];
        sent := sender.QueueMessage(raw[..], size, timer, 0);
        assert QueuedAt(log, sender.Target().Log(), [sent], 0);
        assert bytes[..3 * Fec.BlockSize(size)][..|content|] == bytes[..|content|];
      }
    }

    // The frame is closed and queued, or refused.
    method CloseAndQueue() returns (queued: bool, ghost sent: Sent)
      requires Valid() && view.filling
      modifies raw, `point, sender.rframe, sender.intern, sender.intern.cells, sender.ext, sender.ext.cells
      ensures sender.Valid() && queued == old(HasRoom())
      ensures Queued(old(Log()), Log(), if queued then [sent] else [])
      ensures queued ==> IsFrame(sent.msg, address, view.current)
    {
      hide Sane, Messages, Kept, Flat, IsFrame, Wire, Carries, Queued;
      ghost var log := Log();
      var size := Close();
      queued, sent := QueueClosed(size);
      if !queued {
        NoneQueued(log);
      }
    }

    // signaling_frame_push: the queue grows by exactly this frame, unless it refuses it.
    method FramePush()
      requires Valid() && view.filling
      modifies raw, `point, `view, `sents, sender.rframe, sender.intern, sender.intern.cells, sender.ext,
               sender.ext.cells
      ensures Valid() && view == Push(old(view), old(HasRoom()))
      ensures old(sents) <= sents && Queued(old(Log()), Log(), sents[|old(sents)|..])
      ensures |sents| == |old(sents)| + if old(HasRoom()) then 1 else 0
    {
      hide Sane, IsFrame, Queued, Messages, Kept, JoinGroups, Flat;
      ghost var room := HasRoom();
      PushKeeps(view, room);
      var queued: bool;
      ghost var sent;
      queued, sent := CloseAndQueue();
      point := 0;
      view := Push(view, room);
      ghost var more := if queued then [sent] else [];
      MessagesMore(sents, address, view.closed, more);
      assert (sents + more)[|sents|..] == more;
      sents := sents + more;
    }

    // signaling_TX_add_entry: the queue grows by the frame that was full, if there was one and it
    // was not refused.
    method AddEntry(e: seq<byte>)
      requires Valid() && IsEntry(e)
      modifies raw, `point, `view, `sents, sender.rframe, sender.intern, sender.intern.cells, sender.ext,
               sender.ext.cells
      ensures Valid() && view == Add(old(view), e, old(HasRoom()))
      ensures old(sents) <= sents && Queued(old(Log()), Log(), sents[|old(sents)|..])
      ensures |sents| == |old(sents)| + if Overflows(old(view), e) && old(HasRoom()) then 1 else 0
    {
      InitIfEmpty();
      if point + |e| < 248 {
        Append(e);
      } else {
        FramePush();
        InitIfEmpty();
        Append(e);
      }
    }
  }
}
