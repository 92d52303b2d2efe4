// The entries of signalling frames, as they are built and as they are read
// (source/signaling.cpp:36-112, 264-345, 369-379, 402-452).
module Signaling {
  import opened Bytes
  import opened Reassembly

  // ----- entries -----

  // A callsign is a C string of at most fifteen characters; its field has sixteen bytes.
  type Callsign = c: seq<byte> | |c| <= 15 && 0 !in c witness []

  type Field = f: seq<byte> | |f| == 16 witness seq(16, i => 0)

  // strcpy into a field: behind the terminator stays what was there.
  function Copied(c: Callsign, stale: Field): Field {
    c + [0] + stale[|c| + 1..]
  }

  // The string at the start of some bytes.
  function Text(b: seq<byte>): (t: seq<byte>)
    ensures |t| <= |b| && 0 !in t
  {
    if b == [] || b[0] == 0 then [] else [b[0]] + Text(b[1..])
  }

  // A field read after a zero has been forced into its last byte.
  function Forced(f: Field): Callsign {
    Text(f[..15])
  }

  lemma {:induction false} TextOf(t: seq<byte>, rest: seq<byte>)
    requires 0 !in t && (rest == [] || rest[0] == 0)
    ensures Text(t + rest) == t
  {
    if t == [] {
      assert t + rest == rest;
    } else {
      assert (t + rest)[1..] == t[1..] + rest;
      TextOf(t[1..], rest);
    }
  }

  // Whatever the buffer held before, the callsign copied into a field is read back.
  lemma CallsignRoundTrip(c: Callsign, stale: Field)
    ensures Forced(Copied(c, stale)) == c && Text(Copied(c, stale)) == c
  {
    var tail := [0] + stale[|c| + 1..];
    assert Copied(c, stale) == c + tail;
    TextOf(c, tail);
    assert Copied(c, stale)[..15] == c + tail[..15 - |c|];
    TextOf(c, tail[..15 - |c|]);
  }

  datatype Entry =
    | Whois(id: byte, callsign: Callsign, ipStart: nat, ipSize: nat, rssi: byte, ber: nat, ta: int)
    | ConnectReq(callsign: Callsign, ipSize: nat, staticAlloc: byte)
    | ConnectAck(id: byte, callsign: Callsign, ipStart: nat, ipSize: nat, master: Callsign, modemIp: nat, mask: nat,
                 routeActive: byte, route: nat, dnsActive: byte, dns: nat)
    | ConnectNack(callsign: Callsign, reason: byte, master: Callsign)
    | DisconnectReq(id: byte, callsign: Callsign)
    | DisconnectAck(id: byte, callsign: Callsign)

  predicate Word(x: nat) { x < 0x1_0000_0000 }

  // Every number fits its field.
  predicate Fits(e: Entry) {
    match e
    case Whois(_, _, ipStart, ipSize, _, ber, ta) =>
      Word(ipStart) && Word(ipSize) && ber < 0x1_0000 && -0x8000 <= ta < 0x8000
    case ConnectReq(_, ipSize, _) => Word(ipSize)
    case ConnectAck(_, _, ipStart, ipSize, _, modemIp, mask, _, route, _, dns) =>
      Word(ipStart) && Word(ipSize) && Word(modemIp) && Word(mask) && Word(route) && Word(dns)
    case _ => true
  }

  function Short(x: int): (b: seq<byte>)
    ensures |b| == 2
  {
    [x % 256, (x / 256) % 256]
  }

  function Unsigned(lo: byte, hi: byte): nat { lo as nat + 256 * hi as nat }

  function Signed(lo: byte, hi: byte): int {
    if hi >= 128 then lo + 256 * hi as int - 0x1_0000 else lo + 256 * hi as int
  }

  function TypeOf(e: Entry): byte {
    match e
    case Whois(_, _, _, _, _, _, _) => 0x01
    case ConnectReq(_, _, _) => 0x05
    case ConnectAck(_, _, _, _, _, _, _, _, _, _, _) => 0x06
    case ConnectNack(_, _, _) => 0x07
    case DisconnectReq(_, _) => 0x0B
    case DisconnectAck(_, _) => 0x0C
  }

  // The bodies, built in a buffer whose callsign fields held f and g before.
  function Body(e: Entry, f: Field, g: Field): seq<byte> {
    match e
    case Whois(id, callsign, ipStart, ipSize, rssi, ber, ta) =>
      [id] + Copied(callsign, f) + BigEndian(ipStart) + BigEndian(ipSize) + [rssi] + Short(ber) + Short(ta)
    case ConnectReq(callsign, ipSize, staticAlloc) => Copied(callsign, f) + BigEndian(ipSize) + [staticAlloc]
    case ConnectAck(id, callsign, ipStart, ipSize, master, modemIp, mask, routeActive, route, dnsActive, dns) =>
      [id] + Copied(callsign, f) + BigEndian(ipStart) + BigEndian(ipSize) + Copied(master, g)
      + BigEndian(modemIp) + BigEndian(mask) + [routeActive] + BigEndian(route) + [dnsActive] + BigEndian(dns)
    case ConnectNack(callsign, reason, master) => Copied(callsign, f) + [reason] + Copied(master, g)
    case DisconnectReq(id, callsign) => [id] + Copied(callsign, f)
    case DisconnectAck(id, callsign) => [id] + Copied(callsign, f)
  }

  // Type, length and body; the lengths are the constants of the builders.
  function EntryBytes(e: Entry, f: Field, g: Field): (b: seq<byte>)
    ensures 19 <= |b| <= 61 && b[0] == TypeOf(e) && |b| == 2 + b[1] as nat
  {
    [TypeOf(e), |Body(e, f, g)|] + Body(e, f, g)
  }

  // Where the fields lie, by type.
  lemma AckLayout(e: Entry, f: Field, g: Field)
    requires e.ConnectAck?
    ensures var b := EntryBytes(e, f, g);
            && |b| == 61 && b[0] == 0x06 && b[1] == 59 && b[2] == e.id && b[51] == e.routeActive && b[56] == e.dnsActive
            && b[3..19] == Copied(e.callsign, f) && b[27..43] == Copied(e.master, g)
            && b[19..23] == BigEndian(e.ipStart) && b[23..27] == BigEndian(e.ipSize)
            && b[43..47] == BigEndian(e.modemIp) && b[47..51] == BigEndian(e.mask)
            && b[52..56] == BigEndian(e.route) && b[57..61] == BigEndian(e.dns)
  {
    hide BigEndian, Copied;
    var b := EntryBytes(e, f, g);
    assert b[3..19] == Copied(e.callsign, f) && b[27..43] == Copied(e.master, g);
    assert b[19..23] == BigEndian(e.ipStart) && b[23..27] == BigEndian(e.ipSize);
    assert b[43..47] == BigEndian(e.modemIp) && b[47..51] == BigEndian(e.mask);
    assert b[52..56] == BigEndian(e.route) && b[57..61] == BigEndian(e.dns);
  }

  lemma WhoisLayout(e: Entry, f: Field, g: Field)
    requires e.Whois?
    ensures var b := EntryBytes(e, f, g);
            && |b| == 32 && b[0] == 0x01 && b[1] == 30 && b[2] == e.id && b[27] == e.rssi
            && b[3..19] == Copied(e.callsign, f)
            && b[19..23] == BigEndian(e.ipStart) && b[23..27] == BigEndian(e.ipSize)
            && b[28] == e.ber % 0x100 && b[29] == e.ber / 0x100 % 0x100
            && b[30] == e.ta % 0x100 && b[31] == e.ta / 0x100 % 0x100
  {
    hide BigEndian, Copied;
  }

  lemma RequestLayout(e: Entry, f: Field, g: Field)
    requires e.ConnectReq?
    ensures var b := EntryBytes(e, f, g);
            && |b| == 23 && b[0] == 0x05 && b[1] == 21 && b[22] == e.staticAlloc
            && b[2..18] == Copied(e.callsign, f) && b[18..22] == BigEndian(e.ipSize)
  {
    hide BigEndian, Copied;
  }

  lemma RefusalLayout(e: Entry, f: Field, g: Field)
    requires e.ConnectNack?
    ensures var b := EntryBytes(e, f, g);
            && |b| == 35 && b[0] == 0x07 && b[1] == 33 && b[18] == e.reason
            && b[2..18] == Copied(e.callsign, f) && b[19..35] == Copied(e.master, g)
  {
    hide BigEndian, Copied;
  }

  lemma DisconnectLayout(e: Entry, f: Field, g: Field)
    requires e.DisconnectReq? || e.DisconnectAck?
    ensures var b := EntryBytes(e, f, g);
            && |b| == 19 && b[0] == (if e.DisconnectReq? then 0x0B else 0x0C) && b[1] == 17 && b[2] == e.id
            && b[3..19] == Copied(e.callsign, f)
  {
    hide BigEndian, Copied;
  }

  // A master's callsign is copied as it comes: it must end inside its field.
  predicate Ends(f: Field) {
    |Text(f)| <= 15
  }

  // The fields as the receiver cuts them out, at fixed places behind the type byte; the zero at
  // the end of the client's callsign is forced.
  function Read(b: seq<byte>): Option<Entry>
    requires |b| >= 2
  {
    if b[0] == 0x01 && |b| == 32 then
      Some(Whois(b[2], Forced(b[3..19]), Number(b[19..23]), Number(b[23..27]), b[27],
                 Unsigned(b[28], b[29]), Signed(b[30], b[31])))
    else if b[0] == 0x05 && |b| == 23 then
      Some(ConnectReq(Forced(b[2..18]), Number(b[18..22]), b[22]))
    else if b[0] == 0x06 && |b| == 61 && Ends(b[27..43]) then
      Some(ConnectAck(b[2], Forced(b[3..19]), Number(b[19..23]), Number(b[23..27]), Text(b[27..43]),
                      Number(b[43..47]), Number(b[47..51]), b[51], Number(b[52..56]), b[56],
                      Number(b[57..61])))
    else if b[0] == 0x07 && |b| == 35 && Ends(b[19..35]) then
      Some(ConnectNack(Forced(b[2..18]), b[18], Text(b[19..35])))
    else if b[0] == 0x0B && |b| == 19 then Some(DisconnectReq(b[2], Forced(b[3..19])))
    else if b[0] == 0x0C && |b| == 19 then Some(DisconnectAck(b[2], Forced(b[3..19])))
    else None
  }

  lemma ShortRoundTrip(x: int)
    ensures 0 <= x < 0x1_0000 ==> Unsigned(Short(x)[0], Short(x)[1]) == x
    ensures -0x8000 <= x < 0x8000 ==> Signed(Short(x)[0], Short(x)[1]) == x
  {}

  lemma AckRoundTrip(e: Entry, f: Field, g: Field)
    requires e.ConnectAck? && Fits(e)
    ensures Read(EntryBytes(e, f, g)) == Some(e)
  {
    hide Number, BigEndian, Text, Copied;
    var b := EntryBytes(e, f, g);
    assert b[3..19] == Copied(e.callsign, f) && b[27..43] == Copied(e.master, g);
    assert b[19..23] == BigEndian(e.ipStart) && b[23..27] == BigEndian(e.ipSize);
    assert b[43..47] == BigEndian(e.modemIp) && b[47..51] == BigEndian(e.mask);
    assert b[52..56] == BigEndian(e.route) && b[57..61] == BigEndian(e.dns);
    CallsignRoundTrip(e.callsign, f);
    CallsignRoundTrip(e.master, g);
    BigEndianRoundTrip(e.ipStart, []);
    BigEndianRoundTrip(e.ipSize, []);
    BigEndianRoundTrip(e.modemIp, []);
    BigEndianRoundTrip(e.mask, []);
    BigEndianRoundTrip(e.route, []);
    BigEndianRoundTrip(e.dns, []);
  }

  lemma WhoisRoundTrip(e: Entry, f: Field, g: Field)
    requires e.Whois? && Fits(e)
    ensures Read(EntryBytes(e, f, g)) == Some(e)
  {
    hide Number, BigEndian, Text, Copied;
    var b := EntryBytes(e, f, g);
    assert b[3..19] == Copied(e.callsign, f);
    assert b[19..23] == BigEndian(e.ipStart) && b[23..27] == BigEndian(e.ipSize);
    CallsignRoundTrip(e.callsign, f);
    BigEndianRoundTrip(e.ipStart, []);
    BigEndianRoundTrip(e.ipSize, []);
    ShortRoundTrip(e.ber);
    ShortRoundTrip(e.ta);
  }

  lemma ShortEntries(e: Entry, f: Field, g: Field)
    requires Fits(e) && !e.Whois? && !e.ConnectAck?
    ensures Read(EntryBytes(e, f, g)) == Some(e)
  {
    hide Number, BigEndian, Text, Copied;
    var b := EntryBytes(e, f, g);
    CallsignRoundTrip(e.callsign, f);
    match e
    case ConnectReq(callsign, ipSize, _) =>
      assert b[2..18] == Copied(callsign, f) && b[18..22] == BigEndian(ipSize);
      BigEndianRoundTrip(ipSize, []);
    case ConnectNack(callsign, _, master) =>
      assert b[2..18] == Copied(callsign, f) && b[19..35] == Copied(master, g);
      CallsignRoundTrip(master, g);
    case DisconnectReq(_, callsign) => assert b[3..19] == Copied(callsign, f);
    case DisconnectAck(_, callsign) => assert b[3..19] == Copied(callsign, f);
  }

  // Every field of every kind of entry comes back, whatever the builder's buffer held before.
  lemma EntryRoundTrip(e: Entry, f: Field, g: Field)
    requires Fits(e)
    ensures Read(EntryBytes(e, f, g)) == Some(e)
  {
    hide Read, EntryBytes, Fits;
    if e.Whois? {
      WhoisRoundTrip(e, f, g);
    } else if e.ConnectAck? {
      AckRoundTrip(e, f, g);
    } else {
      ShortEntries(e, f, g);
    }
  }
}
