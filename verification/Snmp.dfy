// The SNMP agent: a GET or GET-NEXT request is parsed and its response is built in one pass,
// the lengths being written back into headers copied from the request
// (source/SNMP.cpp:136-182, 306-632; source/SNMP.h:30-62, 83-88).
module Snmp {
  import opened Bytes

  const ASN_INTEGER: byte := 2
  const ASN_OCTETSTRING: byte := 4
  const ASN_OBJECTID: byte := 6
  const ASN_GAUGE: byte := 0x42
  const ASN_TIMETICKS: byte := 0x43
  const SNMP_SEQUENCE: byte := 0x30
  const GET_REQUEST: byte := 0xa0
  const GET_NEXT_REQUEST: byte := 0xa1
  const GET_RESPONSE: byte := 0xa2
  const SET_REQUEST: byte := 0xa3
  const NO_SUCH_NAME: byte := 2
  const MAX_LEN: nat := 384
  const COMMUNITY: seq<byte> := [0x70, 0x75, 0x62, 0x6c, 0x69, 0x63]

  // ---------- Tags and lengths ----------

  // A length takes one octet, or 0x81 or 0x82 and one or two octets.
  predicate Fits(form: nat, n: nat) {
    (form == 0 && n < 0x80) || (form == 1 && n < 0x100) || (form == 2 && n < 0x1_0000)
  }

  // As the agent writes it: a length that does not fit is cut to the octets there are.
  function Header(tag: byte, form: nat, n: nat): (h: seq<byte>)
    requires form <= 2
    ensures |h| == 2 + form && h[0] == tag
  {
    if form == 0 then [tag, n % 256]
    else if form == 1 then [tag, 0x81, n % 256]
    else [tag, 0x82, n / 256 % 256, n % 256]
  }

  // A number of n octets, as far as sixteen bits hold it.
  function Octets(msg: seq<byte>, from: nat, n: nat): nat
    requires from + n <= |msg|
  {
    if n == 0 then 0 else (Octets(msg, from, n - 1) * 256 + msg[from + n - 1]) % 0x1_0000
  }

  datatype Tlv = Tlv(tag: byte, form: nat, content: seq<byte>) {
    predicate Good() {
      Fits(form, |content|) && !Constructed(tag)
    }

    function Bytes(): seq<byte>
      requires form <= 2
    {
      Header(tag, form, |content|) + content
    }
  }

  // The tags whose contents parseTLV steps into.
  predicate Constructed(tag: byte) {
    tag == SNMP_SEQUENCE || tag == GET_REQUEST || tag == GET_NEXT_REQUEST || tag == SET_REQUEST
  }

  function Nest(tag: byte, form: nat, content: seq<byte>): (b: seq<byte>)
    requires form <= 2
    ensures |b| == 2 + form + |content|
  {
    Header(tag, form, |content|) + content
  }

  // ---------- Requests ----------

  datatype VarBind = VarBind(form: nat, name: Tlv, value: Tlv) {
    predicate Good() {
      name.Good() && value.Good() && name.tag == ASN_OBJECTID && Fits(form, |Pair()|)
    }

    function Pair(): seq<byte>
      requires name.Good() && value.Good()
    {
      name.Bytes() + value.Bytes()
    }

    function Bytes(): seq<byte>
      requires Good()
    {
      Nest(SNMP_SEQUENCE, form, Pair())
    }
  }

  ghost predicate GoodBinds(binds: seq<VarBind>) {
    forall i | 0 <= i < |binds| :: binds[i].Good()
  }

  function BindBytes(binds: seq<VarBind>): seq<byte>
    requires GoodBinds(binds)
  {
    if |binds| == 0 then [] else binds[0].Bytes() + BindBytes(binds[1..])
  }

  // ---------- The management table ----------

  datatype Item = Item(oid: seq<byte>, kind: byte, content: seq<byte>)

  ghost predicate GoodMib(mib: seq<Item>) {
    |mib| < 0x80 && forall i | 0 <= i < |mib| :: |mib[i].oid| <= 12 && |mib[i].content| <= 16
  }

  // The first row from k on that carries the name, -1 without one.
  function RowFrom(mib: seq<Item>, oid: seq<byte>, k: nat): (r: int)
    ensures r == -1 || k <= r < |mib|
    decreases |mib| - k
  {
    if k >= |mib| then -1 else if mib[k].oid == oid then k else RowFrom(mib, oid, k + 1)
  }

  // The row that answers, -1 without one. GET-NEXT takes the row behind the named one, and the
  // first row for a name it does not know.
  function Chosen(mib: seq<Item>, next: bool, oid: seq<byte>): (r: int)
    ensures -1 <= r < |mib|
  {
    var id := RowFrom(mib, oid[..|oid| % 256], 0);
    if !next then id else if id + 1 >= |mib| then -1 else id + 1
  }

  // The name of the response, for the row that answers.
  function NameOf(mib: seq<Item>, next: bool, id: int, name: Tlv): seq<byte>
    requires GoodMib(mib) && -1 <= id < |mib| && name.Good()
  {
    if next && id != -1 then Nest(ASN_OBJECTID, 0, mib[id].oid) else name.Bytes()
  }

  function ValueOf(mib: seq<Item>, id: int, value: Tlv): seq<byte>
    requires GoodMib(mib) && -1 <= id < |mib| && value.Good()
  {
    if id != -1 then Nest(mib[id].kind, 0, mib[id].content) else value.Bytes()
  }

  function Answer(mib: seq<Item>, next: bool, v: VarBind): seq<byte>
    requires GoodMib(mib) && v.Good()
  {
    var id := Chosen(mib, next, v.name.content);
    NameOf(mib, next, id, v.name) + ValueOf(mib, id, v.value)
  }

  function Answers(mib: seq<Item>, next: bool, binds: seq<VarBind>): seq<byte>
    requires GoodMib(mib) && GoodBinds(binds)
  {
    if |binds| == 0 then []
    else Nest(SNMP_SEQUENCE, binds[0].form, Answer(mib, next, binds[0])) + Answers(mib, next, binds[1..])
  }

  // The last bind without an answer, `none` where all are answered.
  function LastMissing(mib: seq<Item>, next: bool, binds: seq<VarBind>, from: nat, none: int): int
    decreases |binds| - from
  {
    if from >= |binds| then none
    else LastMissing(mib, next, binds, from + 1,
                     if Chosen(mib, next, binds[from].name.content) == -1 then from else none)
  }

  // The modem's table, for the numbers measured at the time of the request.
  function NprMib(now: seq<nat>): (mib: seq<Item>)
    requires |now| == 8 && forall i | 0 <= i < 8 :: now[i] < 0x1_0000_0000
    ensures GoodMib(mib) && |mib| == 9
  {
    var npr: seq<byte> := [0x2b, 6, 1, 4, 1, 0x83, 0xaa, 0x0b, 100];
    [Item([0x2b, 6, 1, 2, 1, 1, 1, 0], ASN_OCTETSTRING, [0x4e, 0x50, 0x52, 0x2d, 0x37, 0x30]),
     Item([0x2b, 6, 1, 2, 1, 1, 3, 0], ASN_TIMETICKS, BigEndian(now[0])),
     Item(npr + [1, 0], ASN_GAUGE, BigEndian(now[1])),
     Item(npr + [2, 0], ASN_INTEGER, BigEndian(now[2])),
     Item(npr + [3, 0], ASN_INTEGER, BigEndian(now[3])),
     Item(npr + [4, 0], ASN_GAUGE, BigEndian(now[4])),
     Item(npr + [5, 0], ASN_GAUGE, BigEndian(now[5])),
     Item(npr + [6, 0], ASN_GAUGE, BigEndian(now[6])),
     Item(npr + [7, 0], ASN_GAUGE, BigEndian(now[7]))]
  }

  // Walking the table: GET-NEXT on each row's name answers with the row behind it, and GET on a
  // row's name with the row itself.
  lemma RowsFound(mib: seq<Item>, i: nat)
    requires GoodMib(mib) && i < |mib|
    requires forall j, k | 0 <= j < k < |mib| :: mib[j].oid != mib[k].oid
    ensures Chosen(mib, false, mib[i].oid) == i
    ensures Chosen(mib, true, mib[i].oid) == if i + 1 < |mib| then i + 1 else -1
  {
    assert mib[i].oid[..|mib[i].oid| % 256] == mib[i].oid;
    RowIs(mib, i, 0);
  }

  lemma {:induction false} RowIs(mib: seq<Item>, i: nat, k: nat)
    requires k <= i < |mib|
    requires forall j, k | 0 <= j < k < |mib| :: mib[j].oid != mib[k].oid
    ensures RowFrom(mib, mib[i].oid, k) == i
    decreases i - k
  {
    if k < i {
      RowIs(mib, i, k + 1);
    }
  }

  // So it is for the modem's own table, and its rows hold the numbers measured.
  lemma NprRows(now: seq<nat>, i: nat)
    requires |now| == 8 && (forall i | 0 <= i < 8 :: now[i] < 0x1_0000_0000) && i < 9
    ensures var mib := NprMib(now);
            && Chosen(mib, false, mib[i].oid) == i
            && Chosen(mib, true, mib[i].oid) == (if i < 8 then i + 1 else -1)
            && (i > 0 ==> |mib[i].content| == 4 && Number(mib[i].content) == now[i - 1])
  {
    hide BigEndian, Number, Chosen;
    var mib := NprMib(now);
    forall j, k | 0 <= j < k < |mib| ensures mib[j].oid != mib[k].oid {
      NprName(now, j);
      NprName(now, k);
    }
    RowsFound(mib, i);
    if i > 0 {
      NprName(now, i);
      BigEndianRoundTrip(now[i - 1], []);
    }
  }

  // The names differ in length or in the character before the last.
  lemma NprName(now: seq<nat>, i: nat)
    requires |now| == 8 && (forall i | 0 <= i < 8 :: now[i] < 0x1_0000_0000) && i < 9
    ensures var oid := NprMib(now)[i].oid;
            if i < 2 then |oid| == 8 && oid[6] == 1 + 2 * i else |oid| == 11 && oid[9] == i - 1
    ensures i >= 2 ==> NprMib(now)[i].oid == [0x2b, 6, 1, 4, 1, 0x83, 0xaa, 0x0b, 100, i - 1, 0]
    ensures i > 0 ==> NprMib(now)[i].content == BigEndian(now[i - 1])
    ensures NprMib(now)[i].kind
            == if i == 0 then 0x04 else if i == 1 then 0x43 else if i == 3 || i == 4 then 0x02 else 0x42
  {
    hide BigEndian;
  }

  // ---------- Messages ----------

  // A GET or GET-NEXT request. The names `form` say how each nest spells its length.
  datatype Request = Request(
    form: nat, version: Tlv, community: Tlv,
    next: bool, pduForm: nat, id: Tlv, status: Tlv, place: Tlv,
    listForm: nat, binds: seq<VarBind>)
  {
    ghost predicate Good() {
      && version.Good() && community.Good() && id.Good() && status.Good() && place.Good() && GoodBinds(binds)
      && |version.content| > 0 && |status.content| > 0 && |place.content| > 0
      && Fits(listForm, |BindBytes(binds)|) && Fits(pduForm, |PduBody()|) && Fits(form, |Body()|)
    }

    function PduBody(): seq<byte>
      requires id.Good() && status.Good() && place.Good() && GoodBinds(binds) && Fits(listForm, |BindBytes(binds)|)
    {
      id.Bytes() + status.Bytes() + place.Bytes() + Nest(SNMP_SEQUENCE, listForm, BindBytes(binds))
    }

    function Tag(): byte {
      if next then GET_NEXT_REQUEST else GET_REQUEST
    }

    function Body(): seq<byte>
      requires version.Good() && community.Good() && id.Good() && status.Good() && place.Good() && GoodBinds(binds)
      requires Fits(listForm, |BindBytes(binds)|) && Fits(pduForm, |PduBody()|)
    {
      version.Bytes() + community.Bytes() + Nest(Tag(), pduForm, PduBody())
    }

    function Bytes(): seq<byte>
      requires Good()
    {
      Nest(SNMP_SEQUENCE, form, Body())
    }

    // The version and community the agent answers to.
    predicate Accepted() {
      && version.tag == ASN_INTEGER && |version.content| > 0 && version.content[0] == 0
      && community.tag == ASN_OCTETSTRING && community.content == COMMUNITY
    }
  }

  function Missing(mib: seq<Item>, r: Request): int {
    LastMissing(mib, r.next, r.binds, 0, -1)
  }

  // The error fields of the response.
  function Status(mib: seq<Item>, r: Request): (t: Tlv)
    requires |r.status.content| > 0
    ensures t.tag == r.status.tag && t.form == r.status.form && |t.content| == |r.status.content|
  {
    if Missing(mib, r) == -1 then r.status
    else r.status.(content := r.status.content[0 := NO_SUCH_NAME])
  }

  function Place(mib: seq<Item>, r: Request): (t: Tlv)
    requires |r.place.content| > 0
    ensures t.tag == r.place.tag && t.form == r.place.form && |t.content| == |r.place.content|
  {
    if Missing(mib, r) == -1 then r.place
    else r.place.(content := r.place.content[0 := (Missing(mib, r) % 256 + 1) % 256])
  }

  lemma PduBodyParts(r: Request)
    requires r.Good()
    ensures r.PduBody()
         == r.id.Bytes() + r.status.Bytes() + r.place.Bytes() + Nest(SNMP_SEQUENCE, r.listForm, BindBytes(r.binds))
  {}

  // What the response holds inside its PDU.
  function PduAnswer(mib: seq<Item>, r: Request): seq<byte>
    requires r.Good() && GoodMib(mib)
  {
    r.id.Bytes() + Status(mib, r).Bytes() + Place(mib, r).Bytes()
    + Nest(SNMP_SEQUENCE, r.listForm, Answers(mib, r.next, r.binds))
  }

  // The length the agent writes for the PDU: its own header is added, that of the list is not.
  function PduSize(mib: seq<Item>, r: Request): nat
    requires r.Good() && GoodMib(mib)
  {
    2 + r.pduForm + |r.id.Bytes()| + |r.status.Bytes()| + |r.place.Bytes()| + |Answers(mib, r.next, r.binds)|
  }

  // The length the agent writes for the message: its own header is added, that of the PDU is not.
  function MessageSize(mib: seq<Item>, r: Request): nat
    requires r.Good() && GoodMib(mib)
  {
    2 + r.form + |r.version.Bytes()| + |r.community.Bytes()| + PduSize(mib, r)
  }

  // A GET of a row is answered under its name with the row's value, a GET-NEXT under the name of the
  // row behind it with that row's value; behind the last row the request comes back.
  lemma AnswerBytes(mib: seq<Item>, v: VarBind, i: nat)
    requires GoodMib(mib) && v.Good() && i < |mib| && v.name.content == mib[i].oid
    requires forall j, k | 0 <= j < k < |mib| :: mib[j].oid != mib[k].oid
    ensures Answer(mib, false, v) == v.name.Bytes() + ([mib[i].kind, |mib[i].content|] + mib[i].content)
    ensures i + 1 < |mib| ==>
              Answer(mib, true, v) == ([0x06, |mib[i + 1].oid|] + mib[i + 1].oid)
                                      + ([mib[i + 1].kind, |mib[i + 1].content|] + mib[i + 1].content)
    ensures i + 1 == |mib| ==> Answer(mib, true, v) == v.name.Bytes() + v.value.Bytes()
  {
    hide Tlv.Bytes, Chosen;
    RowsFound(mib, i);
  }

  // A name without a row: a GET brings the request back, a GET-NEXT is answered by the first row.
  lemma UnknownAnswer(mib: seq<Item>, v: VarBind)
    requires GoodMib(mib) && v.Good() && |mib| > 0 && |v.name.content| < 256
    requires forall i | 0 <= i < |mib| :: mib[i].oid != v.name.content
    ensures Answer(mib, false, v) == v.name.Bytes() + v.value.Bytes()
    ensures Answer(mib, true, v) == ([0x06, |mib[0].oid|] + mib[0].oid)
                                    + ([mib[0].kind, |mib[0].content|] + mib[0].content)
  {
    hide Tlv.Bytes;
    var oid := v.name.content;
    assert oid[..|oid| % 256] == oid;
    NoRow(mib, oid, 0);
  }

  lemma {:induction false} NoRow(mib: seq<Item>, oid: seq<byte>, k: nat)
    requires k <= |mib| && forall i | 0 <= i < |mib| :: mib[i].oid != oid
    ensures RowFrom(mib, oid, k) == -1
    decreases |mib| - k
  {
    if k < |mib| {
      NoRow(mib, oid, k + 1);
    }
  }

  // With every name answered the error fields are those of the request. Otherwise the status is 2,
  // noSuchName, and the index counts from one up to the last name without an answer.
  lemma ErrorFields(mib: seq<Item>, r: Request, k: nat)
    requires |r.status.content| > 0 && |r.place.content| > 0 && k <= |r.binds|
    requires forall j | k <= j < |r.binds| :: Chosen(mib, r.next, r.binds[j].name.content) != -1
    requires k > 0 ==> Chosen(mib, r.next, r.binds[k - 1].name.content) == -1
    ensures k == 0 ==> Status(mib, r) == r.status && Place(mib, r) == r.place
    ensures 0 < k < 256 ==> Status(mib, r) == r.status.(content := r.status.content[0 := 2])
                            && Place(mib, r) == r.place.(content := r.place.content[0 := k])
  {
    hide Chosen;
    LastIs(mib, r.next, r.binds, k, 0, -1);
  }

  lemma {:induction false} LastIs(mib: seq<Item>, next: bool, binds: seq<VarBind>, k: nat, from: nat, none: int)
    requires k <= |binds| && (k > 0 ==> Chosen(mib, next, binds[k - 1].name.content) == -1)
    requires forall j | k <= j < |binds| :: Chosen(mib, next, binds[j].name.content) != -1
    ensures LastMissing(mib, next, binds, from, none) == if from < k then k - 1 else none
    decreases |binds| - from
  {
    hide Chosen;
    if from < |binds| {
      LastIs(mib, next, binds, k, from + 1,
             if Chosen(mib, next, binds[from].name.content) == -1 then from else none);
    }
  }

  // The bytes of the response, with the lengths the agent writes.
  function PduResponse(mib: seq<Item>, r: Request): seq<byte>
    requires r.Good() && GoodMib(mib)
  {
    Header(GET_RESPONSE, r.pduForm, PduSize(mib, r)) + PduAnswer(mib, r)
  }

  lemma PduResponseLength(mib: seq<Item>, r: Request)
    requires r.Good() && GoodMib(mib)
    ensures |PduResponse(mib, r)| == PduSize(mib, r) + 2 + r.listForm
  {
  }

  lemma PduResponseParts(mib: seq<Item>, r: Request, before: seq<byte>)
    requires r.Good() && GoodMib(mib)
    ensures before + Header(GET_RESPONSE, r.pduForm, PduSize(mib, r)) + r.id.Bytes() + Status(mib, r).Bytes()
            + Place(mib, r).Bytes() + Nest(SNMP_SEQUENCE, r.listForm, Answers(mib, r.next, r.binds))
            == before + PduResponse(mib, r)
  {
    hide Header, Tlv.Bytes, Status, Place, PduSize, Nest, Answers;
    var h, x, s, p := Header(GET_RESPONSE, r.pduForm, PduSize(mib, r)), r.id.Bytes(), Status(mib, r).Bytes(),
                      Place(mib, r).Bytes();
    var a := Nest(SNMP_SEQUENCE, r.listForm, Answers(mib, r.next, r.binds));
    assert before + h + x + s + p + a == before + (h + (x + s + p + a));
  }

  function Response(mib: seq<Item>, r: Request): seq<byte>
    requires r.Good() && GoodMib(mib)
  {
    Header(SNMP_SEQUENCE, r.form, MessageSize(mib, r))
    + (r.version.Bytes() + r.community.Bytes() + PduResponse(mib, r))
  }

  // The contents of the message when the PDU carries its true length.
  function WellFormedBody(mib: seq<Item>, r: Request): seq<byte>
    requires r.Good() && GoodMib(mib)
  {
    r.version.Bytes() + r.community.Bytes() + Nest(GET_RESPONSE, r.pduForm, PduAnswer(mib, r))
  }

  // What each nest of a well-formed response encloses has a length that fits the header copied
  // from the request.
  ghost predicate Spelt(mib: seq<Item>, r: Request)
    requires r.Good() && GoodMib(mib)
  {
    && (forall i | 0 <= i < |r.binds| :: Fits(r.binds[i].form, |Answer(mib, r.next, r.binds[i])|))
    && Fits(r.listForm, |Answers(mib, r.next, r.binds)|)
    && Fits(r.pduForm, |PduAnswer(mib, r)|) && Fits(r.form, |WellFormedBody(mib, r)|)
  }

  // Every nest carries the length of what it encloses.
  ghost predicate WellFormed(mib: seq<Item>, r: Request)
    requires r.Good() && GoodMib(mib)
  {
    Spelt(mib, r) && Response(mib, r) == Nest(SNMP_SEQUENCE, r.form, WellFormedBody(mib, r))
  }

  // The response is well formed exactly when its lengths fit the headers of the request, and the
  // message, the PDU and the list spell theirs with the same number of octets.
  lemma WellFormedExactly(mib: seq<Item>, r: Request)
    requires r.Good() && GoodMib(mib)
    ensures WellFormed(mib, r) <==> Spelt(mib, r) && r.form == r.listForm && r.pduForm == r.listForm
  {
    hide Tlv.Bytes, Answers, Missing, Status, Place, BindBytes, Header;
    var pdu, good := Nest(GET_RESPONSE, r.pduForm, PduAnswer(mib, r)), WellFormedBody(mib, r);
    FieldLengths(mib, r);
    var body := r.version.Bytes() + r.community.Bytes() + PduResponse(mib, r);
    assert |PduAnswer(mib, r)| + r.pduForm == PduSize(mib, r) + r.listForm;
    assert |good| + r.form == MessageSize(mib, r) + r.listForm;
    if WellFormed(mib, r) {
      var x, y := Response(mib, r), Nest(SNMP_SEQUENCE, r.form, good);
      assert x[2 + r.form..] == body && y[2 + r.form..] == good;
      assert x[..2 + r.form] == Header(SNMP_SEQUENCE, r.form, MessageSize(mib, r));
      assert y[..2 + r.form] == Header(SNMP_SEQUENCE, r.form, |good|);
      HeaderInjective(SNMP_SEQUENCE, r.form, MessageSize(mib, r), |good|);
      var skip := |r.version.Bytes() + r.community.Bytes()|;
      assert body[skip..] == PduResponse(mib, r) && good[skip..] == pdu;
      assert pdu[..2 + r.pduForm] == Header(GET_RESPONSE, r.pduForm, |PduAnswer(mib, r)|);
      assert PduResponse(mib, r)[..2 + r.pduForm] == Header(GET_RESPONSE, r.pduForm, PduSize(mib, r));
      HeaderInjective(GET_RESPONSE, r.pduForm, PduSize(mib, r), |PduAnswer(mib, r)|);
    }
  }

  lemma FieldLengths(mib: seq<Item>, r: Request)
    requires r.Good()
    ensures |Status(mib, r).Bytes()| == |r.status.Bytes()| && |Place(mib, r).Bytes()| == |r.place.Bytes()|
  {}

  // The octets on the wire, for lengths below 128: what is asked, what is answered, and to whom.
  lemma Layout(mib: seq<Item>, r: Request)
    requires r.Good() && GoodMib(mib) && r.form == r.pduForm == r.listForm == 0
    ensures r.Bytes() == [0x30, |r.Body()|] + (r.version.Bytes() + r.community.Bytes()
              + ([if r.next then 0xa1 else 0xa0, |r.PduBody()|]
                 + (r.id.Bytes() + r.status.Bytes() + r.place.Bytes()
                    + ([0x30, |BindBytes(r.binds)|] + BindBytes(r.binds)))))
    ensures Response(mib, r) == [0x30, MessageSize(mib, r) % 256] + (r.version.Bytes() + r.community.Bytes()
              + ([0xa2, PduSize(mib, r) % 256]
                 + (r.id.Bytes() + Status(mib, r).Bytes() + Place(mib, r).Bytes()
                    + ([0x30, |Answers(mib, r.next, r.binds)| % 256] + Answers(mib, r.next, r.binds)))))
    ensures r.Accepted() <==>
              && r.version.tag == 0x02 && r.version.content[0] == 0
              && r.community.tag == 0x04 && r.community.content == [0x70, 0x75, 0x62, 0x6c, 0x69, 0x63]
  {
    hide Tlv.Bytes, Status, Place, Answers, BindBytes, PduSize, MessageSize;
  }

  lemma LeafLayout(t: Tlv)
    requires t.Good()
    ensures t.Bytes() == if t.form == 0 then [t.tag, |t.content|] + t.content
                         else if t.form == 1 then [t.tag, 0x81, |t.content|] + t.content
                         else [t.tag, 0x82, |t.content| / 256, |t.content| % 256] + t.content
  {}

  // A GET without any name whose list alone spells its length with 0x81.
  function LongListRequest(): Request {
    Request(0, Tlv(ASN_INTEGER, 0, [0]), Tlv(ASN_OCTETSTRING, 0, COMMUNITY), false, 0, Tlv(ASN_INTEGER, 0, [1]),
            Tlv(ASN_INTEGER, 0, [0]), Tlv(ASN_INTEGER, 0, [0]), 1, [])
  }

  // It is accepted, and answered by a message whose lengths are wrong.
  lemma LongListMalformed(mib: seq<Item>)
    requires GoodMib(mib)
    ensures var r := LongListRequest();
            r.Good() && r.Accepted() && |Response(mib, r)| <= MAX_LEN && !WellFormed(mib, r)
  {
    var r := LongListRequest();
    assert BindBytes(r.binds) == [];
    assert Answers(mib, r.next, r.binds) == [];
    assert LastMissing(mib, r.next, r.binds, 0, -1) == -1;
    WellFormedExactly(mib, r);
  }

  function AnswersSize(mib: seq<Item>, next: bool, binds: seq<VarBind>): nat
    requires GoodMib(mib) && GoodBinds(binds)
  {
    if |binds| == 0 then 0 else 2 + binds[0].form + |Answer(mib, next, binds[0])| + AnswersSize(mib, next, binds[1..])
  }

  lemma {:induction false} SmallAnswers(mib: seq<Item>, next: bool, binds: seq<VarBind>)
    requires GoodMib(mib) && GoodBinds(binds) && AnswersSize(mib, next, binds) < 0x80
    requires forall i | 0 <= i < |binds| :: binds[i].form == 0
    ensures forall i | 0 <= i < |binds| :: Fits(binds[i].form, |Answer(mib, next, binds[i])|)
    ensures |Answers(mib, next, binds)| == AnswersSize(mib, next, binds)
  {
    if |binds| > 0 {
      SmallAnswers(mib, next, binds[1..]);
      forall i | 0 <= i < |binds| ensures Fits(binds[i].form, |Answer(mib, next, binds[i])|) {
        if i > 0 { assert binds[i] == binds[1..][i - 1]; }
      }
    }
  }

  // Requests with one-octet lengths whose response stays within 127 octets are answered by a
  // well-formed message: every length is that of what it encloses.
  lemma OneOctetLengths(mib: seq<Item>, r: Request)
    requires r.Good() && GoodMib(mib) && r.form == 0 && r.pduForm == 0 && r.listForm == 0
    requires forall i | 0 <= i < |r.binds| :: r.binds[i].form == 0
    requires |r.version.Bytes()| + |r.community.Bytes()| + |r.id.Bytes()| + |r.status.Bytes()| + |r.place.Bytes()|
             + AnswersSize(mib, r.next, r.binds) + 4 < 0x80
    ensures |Response(mib, r)| <= MAX_LEN && WellFormed(mib, r)
  {
    SmallAnswers(mib, r.next, r.binds);
    PduResponseLength(mib, r);
    WellFormedExactly(mib, r);
  }

  lemma HeaderInjective(tag: byte, form: nat, m: nat, n: nat)
    requires Fits(form, n) && m - 2 <= n <= m + 2 && Header(tag, form, m) == Header(tag, form, n)
    ensures m == n
  {
    var h, g := Header(tag, form, m), Header(tag, form, n);
    assert forall i | 0 <= i < 2 + form :: h[i] == g[i];
    if form == 2 {
      assert h[2] == g[2] && h[3] == g[3];
    } else {
      assert h[1 + form] == g[1 + form];
    }
  }

  // ---------- The agent ----------

  class Agent {
    const mib: seq<Item>
    const request: seq<byte>
    const response: array<byte>
    var at: nat
    var end: nat
    var errorStatus: byte
    var errorIndex: int

    constructor (mib: seq<Item>, request: seq<byte>)
      requires GoodMib(mib)
      ensures Valid() && fresh(response)
      ensures this.mib == mib && this.request == request && at == 0 && end == 0 && errorStatus == 0
    {
      this.mib := mib;
      this.request := request;
      response := new byte[MAX_LEN](i => 0);
      at, end, errorStatus, errorIndex := 0, 0, 0, 0;
    }

    ghost predicate Valid()
      reads this
    {
      response.Length == MAX_LEN && end <= MAX_LEN && at <= |request| && GoodMib(mib)
    }

    ghost function Built(): seq<byte>
      reads this, response
      requires Valid()
    {
      response[..end]
    }

    ghost predicate Upcoming(bs: seq<byte>)
      reads this
    {
      at + |bs| <= |request| && request[at..at + |bs|] == bs
    }

    // parseLength: sixteen bits, any number of length octets that the request holds.
    method ParseLength(from: nat) returns (len: nat, used: nat)
      requires from < |request| && request[from] != 0x80
      requires request[from] > 0x80 ==> from + 1 + (request[from] - 0x80) <= |request|
      ensures if request[from] < 0x80 then len == request[from] && used == 1
              else used == 1 + (request[from] - 0x80) && len == Octets(request, from + 1, used - 1)
    {
      used := 1;
      if request[from] >= 0x80 {
        var left := request[from] - 0x80 - 1;
        len := request[from + 1];
        used := 2;
        OneOctet(from + 1);
        while left > 0
          invariant left >= 0 && left + used == 1 + (request[from] - 0x80) && used >= 2
          invariant len == Octets(request, from + 1, used - 1)
        {
          len := (len * 256 + request[from + used]) % 0x1_0000;
          used := used + 1;
          left := left - 1;
        }
      } else {
        len := request[from];
      }
    }

    // parseTLV at the current index
    method ParseTlv(ghost tag: byte, ghost form: nat, ghost n: nat)
      returns (start: nat, len: nat, vstart: nat, nstart: nat)
      requires Valid() && Fits(form, n) && Upcoming(Header(tag, form, n))
      ensures start == at && len == n && vstart == at + 2 + form
      ensures nstart == vstart + if Constructed(tag) then 0 else n
    {
      hide Header, Octets;
      start := at;
      HeaderFields(tag, form, n);
      var used;
      len, used := ParseLength(at + 1);
      vstart := at + used + 1;
      nstart := if Constructed(request[at]) then vstart else vstart + len;
    }

    lemma HeaderFields(tag: byte, form: nat, n: nat)
      requires Fits(form, n) && Upcoming(Header(tag, form, n))
      ensures at + 1 < |request| && request[at] == tag
      ensures if form == 0 then request[at + 1] == n < 0x80
              else request[at + 1] == 0x80 + form && at + 2 + form <= |request| && Octets(request, at + 2, form) == n
    {
      hide Octets, Header;
      forall i | 0 <= i < 2 + form ensures request[at + i] == Header(tag, form, n)[i] {
        assert request[at + i] == request[at..at + 2 + form][i];
      }
      assert request[at + 0] == Header(tag, form, n)[0] && request[at + 1] == Header(tag, form, n)[1];
      SecondIs(tag, form, n);
      if form > 0 {
        OctetsOf(tag, form, n, at);
      }
    }

    lemma SecondIs(tag: byte, form: nat, n: nat)
      requires Fits(form, n)
      ensures Header(tag, form, n)[1] == if form == 0 then n else 0x80 + form
    {}

    lemma OctetsOf(tag: byte, form: nat, n: nat, from: nat)
      requires 0 < form && Fits(form, n) && from + 2 + form <= |request|
      requires forall i | 0 <= i < 2 + form :: request[from + i] == Header(tag, form, n)[i]
      ensures Octets(request, from + 2, form) == n
    {
      var h := Header(tag, form, n);
      assert request[from + 2] == h[2];
      OneOctet(from + 2);
      if form == 2 {
        assert request[from + 3] == h[3];
        assert Octets(request, from + 2, 2) == (Octets(request, from + 2, 1) * 256 + request[from + 3]) % 0x1_0000;
        TwoOctets(n);
      }
    }

    lemma TwoOctets(n: nat)
      requires n < 0x1_0000
      ensures n / 256 % 256 * 256 + n % 256 == n
    {}

    lemma OneOctet(from: nat)
      requires from < |request|
      ensures Octets(request, from, 1) == request[from]
    {
      assert Octets(request, from, 0) == 0;
    }

    // COPY_SEGMENT
    method Copy(start: nat, seglen: nat)
      requires Valid() && start + seglen <= |request| && at + seglen <= |request| && end + seglen <= MAX_LEN
      modifies this`at, this`end, response
      ensures Valid() && at == old(at) + seglen && end == old(end) + seglen
      ensures Built() == old(Built()) + request[start..start + seglen]
    {
      at := at + seglen;
      for k := 0 to seglen
        invariant at == old(at) + seglen && end == old(end)
        invariant response[..end + k] == old(Built()) + request[start..start + k]
      {
        response[end + k] := request[start + k];
        assert request[start..start + k + 1] == request[start..start + k] + [request[start + k]];
      }
      end := end + seglen;
    }

    // insertRespLen: the length of a header that was copied from the request
    method InsertLength(reqStart: nat, respStart: nat, size: nat,
                        ghost before: seq<byte>, ghost tag: byte, ghost form: nat, ghost n: nat, ghost after: seq<byte>)
      requires Valid() && Fits(form, n) && respStart == |before|
      requires reqStart + 1 < |request| && request[reqStart + 1] == Header(0, form, n)[1]
      requires Built() == before + Header(tag, form, n) + after
      modifies response
      ensures Built() == before + Header(tag, form, size) + after
    {
      if request[reqStart + 1] >= 0x80 {
        InsertLong(respStart, request[reqStart + 1] - 0x80, size, before, tag, n, after);
      } else {
        ghost var was := Built();
        response[respStart + 1] := size % 256;
        assert Built() == was[respStart + 1 := size % 256];
        assert was[respStart + 1 := size % 256] == before + [tag, size % 256] + after;
      }
    }

    // The loop of insertRespLen, from the last length octet to the first.
    method InsertLong(respStart: nat, octets: nat, size: nat,
                      ghost before: seq<byte>, ghost tag: byte, ghost n: nat, ghost after: seq<byte>)
      requires Valid() && octets > 0 && Fits(octets, n) && respStart == |before|
      requires Built() == before + Header(tag, octets, n) + after
      modifies response
      ensures Built() == before + Header(tag, octets, size) + after
    {
      ghost var was := Built();
      var left := octets;
      var rest := size;
      while left > 0
        invariant 0 <= left <= octets
        invariant rest == if left == octets then size else if left == 1 then size / 256 else rest
        invariant forall i | 0 <= i < end && !(respStart + 2 + left <= i < respStart + 2 + octets)
                    :: response[i] == was[i]
        invariant left < octets ==> response[respStart + 1 + octets] == size % 256
        invariant left == 0 && octets == 2 ==> response[respStart + 2] == size / 256 % 256
      {
        left := left - 1;
        response[respStart + 2 + left] := rest % 256;
        rest := rest / 256;
      }
      ghost var now := before + Header(tag, octets, size) + after;
      assert |was| == |now| == end;
      assert forall i | 0 <= i < end && !(respStart + 2 <= i < respStart + 2 + octets) :: was[i] == now[i];
      assert forall i | 0 <= i < end :: response[i] == now[i];
    }

    // findEntry
    method FindEntry(oid: seq<byte>) returns (id: int)
      ensures id == RowFrom(mib, oid, 0)
    {
      for i := 0 to |mib|
        invariant RowFrom(mib, oid, i) == RowFrom(mib, oid, 0)
      {
        if mib[i].oid == oid {
          return i;
        }
      }
      return -1;
    }

    method Fill(from: nat, content: seq<byte>)
      requires from + |content| <= response.Length
      modifies response
      ensures response[..from] == old(response[..from]) && response[from..from + |content|] == content
    {
      for j := 0 to |content|
        invariant response[..from] == old(response[..from]) && response[from..from + j] == content[..j]
      {
        response[from + j] := content[j];
      }
    }

    // getOID and getEntry: a tag, a one-octet length and the octets, at the write index.
    method Append(tag: byte, content: seq<byte>)
      requires Valid() && |content| < 0x80 && end + 2 + |content| <= MAX_LEN
      modifies this`end, response
      ensures Valid() && end == old(end) + 2 + |content|
      ensures Built() == old(Built()) + Nest(tag, 0, content)
    {
      Fill(end + 2, content);
      ghost var filled := response[..];
      assert filled[..end] == old(Built());
      response[end] := tag;
      response[end + 1] := |content|;
      end := end + 2 + |content|;
      assert response[..] == filled[old(end) := tag][old(end) + 1 := |content|];
      NestWritten(filled, old(end), tag, content);
    }

    lemma NestWritten(filled: seq<byte>, at: nat, tag: byte, content: seq<byte>)
      requires at + 2 + |content| <= |filled| && |content| < 0x80
      requires filled[at + 2..at + 2 + |content|] == content
      ensures filled[at := tag][at + 1 := |content|][..at + 2 + |content|] == filled[..at] + Nest(tag, 0, content)
    {
      var written := filled[at := tag][at + 1 := |content|];
      assert written[..at] == filled[..at] && written[at..at + 2] == [tag, |content|];
      assert written[at + 2..at + 2 + |content|] == content;
      assert written[..at + 2 + |content|]
          == written[..at] + written[at..at + 2] + written[at + 2..at + 2 + |content|];
    }

    lemma Split(x: seq<byte>, y: seq<byte>)
      requires Upcoming(x + y)
      ensures Upcoming(x)
      ensures at + |x| + |y| <= |request| && request[at + |x|..at + |x| + |y|] == y
    {
      assert request[at..at + |x + y|][..|x|] == x;
      assert request[at..at + |x + y|][|x|..] == y;
    }

    lemma TlvSplit(t: Tlv)
      requires t.Good() && Upcoming(t.Bytes())
      ensures Upcoming(Header(t.tag, t.form, |t.content|))
      ensures var v := at + 2 + t.form; v + |t.content| <= |request| && request[v..v + |t.content|] == t.content
    {
      Split(Header(t.tag, t.form, |t.content|), t.content);
    }

    lemma Beginning(from: nat, content: seq<byte>, k: nat)
      requires from + |content| <= |request| && request[from..from + |content|] == content && k <= |content|
      ensures request[from..from + k] == content[..k]
    {
    }

    // The first half of parseVarBind: the name is looked up, then copied or replaced.
    method ParseName(next: bool, ghost name: Tlv) returns (id: int, size: nat)
      requires Valid() && name.Good() && name.tag == ASN_OBJECTID && Upcoming(name.Bytes())
      requires end + |NameOf(mib, next, Chosen(mib, next, name.content), name)| <= MAX_LEN
      modifies this`at, this`end, response
      ensures Valid() && at == old(at) + |name.Bytes()| && end == old(end) + size
      ensures id == Chosen(mib, next, name.content)
      ensures Built() == old(Built()) + NameOf(mib, next, id, name)
    {
      hide Header, Tlv.Bytes, RowFrom, Nest, Chosen;
      TlvSplit(name);
      TagFirst(name);
      var start, len, vstart, nstart := ParseTlv(name.tag, name.form, |name.content|);
      id := ChooseRow(next, vstart, len, name.content);
      if next && id != -1 {
        Append(request[start], mib[id].oid);
        at := at + (nstart - start);
        size := 2 + |mib[id].oid|;
      } else {
        size := nstart - start;
        Copy(start, size);
      }
    }

    // The row looked up by the name, or the one behind it.
    method ChooseRow(next: bool, vstart: nat, len: nat, ghost oid: seq<byte>) returns (id: int)
      requires Valid() && len == |oid| && vstart + len <= |request| && request[vstart..vstart + len] == oid
      ensures id == Chosen(mib, next, oid)
    {
      hide RowFrom;
      Beginning(vstart, oid, len % 256);
      id := FindEntry(request[vstart..vstart + len % 256]);
      if next {
        id := if id + 1 >= |mib| then -1 else id + 1;
      }
    }

    // The second half of parseVarBind: the row's value, or a copy and an error.
    method ParseValue(id: int, index: nat, ghost value: Tlv) returns (size: nat)
      requires Valid() && value.Good() && -1 <= id < |mib| && Upcoming(value.Bytes())
      requires end + |ValueOf(mib, id, value)| <= MAX_LEN
      modifies this, response
      ensures Valid() && at == old(at) + |value.Bytes()| && end == old(end) + size
      ensures Built() == old(Built()) + ValueOf(mib, id, value)
      ensures Noted(id, index, old(errorStatus), old(errorIndex))
    {
      TlvSplit(value);
      var start, len, vstart, nstart := ParseTlv(value.tag, value.form, |value.content|);
      if id != -1 {
        Append(mib[id].kind, mib[id].content);
        size := 2 + |mib[id].content|;
        at := at + (nstart - start);
      } else {
        size := nstart - start;
        Copy(start, size);
        errorIndex := index;
        errorStatus := NO_SUCH_NAME;
      }
    }

    // A bind without an answer is noted, any other leaves the error fields alone.
    ghost predicate Noted(id: int, index: nat, status: byte, previous: int)
      reads this
    {
      if id == -1 then errorStatus == NO_SUCH_NAME && errorIndex == index
      else errorStatus == status && errorIndex == previous
    }

    // parseVarBind
    method ParseVarBind(next: bool, index: nat, ghost v: VarBind) returns (size: nat)
      requires Valid() && v.Good() && Upcoming(v.Pair())
      requires end + |Answer(mib, next, v)| <= MAX_LEN
      modifies this, response
      ensures Valid() && at == old(at) + |v.Pair()| && end == old(end) + size
      ensures Built() == old(Built()) + Answer(mib, next, v)
      ensures Noted(Chosen(mib, next, v.name.content), index, old(errorStatus), old(errorIndex))
    {
      hide Header, Tlv.Bytes, NameOf, ValueOf, Chosen;
      ghost var was := Built();
      Split(v.name.Bytes(), v.value.Bytes());
      var id, first := ParseName(next, v.name);
      var second := ParseValue(id, index, v.value);
      size := first + second;
      assert Built() == was + NameOf(mib, next, id, v.name) + ValueOf(mib, id, v.value);
    }

    lemma SecondOctet(tag: byte, form: nat, n: nat)
      requires form <= 2 && Upcoming(Header(tag, form, n))
      ensures at + 1 < |request| && request[at + 1] == Header(0, form, n)[1]
    {
      assert request[at + 1] == request[at..at + 2 + form][1];
      assert Header(tag, form, n)[1] == Header(0, form, n)[1];
    }

    // The start of a nest: its header is copied.
    method Open(ghost tag: byte, ghost form: nat, ghost n: nat) returns (start: nat, respLoc: nat, seglen: nat)
      requires Valid() && Fits(form, n) && Upcoming(Header(tag, form, n)) && end + 2 + form <= MAX_LEN
      modifies this`at, this`end, response
      ensures Valid() && at == old(at) + seglen && end == old(end) + seglen && seglen == 2 + form
      ensures start == old(at) && respLoc == old(end)
      ensures Built() == old(Built()) + Header(tag, form, n)
      ensures start + 1 < |request| && request[start + 1] == Header(0, form, n)[1]
    {
      hide Header;
      SecondOctet(tag, form, n);
      var len, vstart, nstart;
      start, len, vstart, nstart := ParseTlv(tag, form, n);
      seglen := vstart - start;
      respLoc := end;
      Copy(start, seglen);
    }

    // parseSequence
    method ParseSequence(next: bool, index: nat, ghost v: VarBind) returns (size: nat)
      requires Valid() && v.Good() && Upcoming(v.Bytes())
      requires end + 2 + v.form + |Answer(mib, next, v)| <= MAX_LEN
      modifies this, response
      ensures Valid() && at == old(at) + |v.Bytes()| && end == old(end) + size
      ensures Built() == old(Built()) + Nest(SNMP_SEQUENCE, v.form, Answer(mib, next, v))
      ensures Noted(Chosen(mib, next, v.name.content), index, old(errorStatus), old(errorIndex))
    {
      hide Answer, Header, Chosen;
      ghost var was, n := Built(), |v.Pair()|;
      Split(Header(SNMP_SEQUENCE, v.form, n), v.Pair());
      var start, respLoc, seglen := Open(SNMP_SEQUENCE, v.form, n);
      ghost var a := Answer(mib, next, v);
      size := ParseVarBind(next, index, v);
      InsertLength(start, respLoc, size, was, SNMP_SEQUENCE, v.form, n, a);
      assert was + (Header(SNMP_SEQUENCE, v.form, size) + a) == was + Header(SNMP_SEQUENCE, v.form, size) + a;
      size := size + seglen;
    }

    // A leaf is copied as it is.
    method CopyLeaf(ghost t: Tlv) returns (start: nat, vstart: nat, seglen: nat)
      requires Valid() && t.Good() && Upcoming(t.Bytes()) && end + |t.Bytes()| <= MAX_LEN
      modifies this`at, this`end, response
      ensures Valid() && at == old(at) + seglen && end == old(end) + seglen && seglen == |t.Bytes()|
      ensures start == old(at) && vstart == start + 2 + t.form
      ensures Built() == old(Built()) + t.Bytes()
    {
      TlvSplit(t);
      var len, nstart;
      start, len, vstart, nstart := ParseTlv(t.tag, t.form, |t.content|);
      seglen := nstart - start;
      Copy(start, seglen);
    }

    // One round of the list.
    method ParseNext(next: bool, index: nat, ghost rest: seq<VarBind>) returns (size: nat)
      requires Valid() && GoodBinds(rest) && |rest| > 0
      requires Upcoming(BindBytes(rest)) && end + |Answers(mib, next, rest)| <= MAX_LEN
      modifies this, response
      ensures Valid() && Upcoming(BindBytes(rest[1..]))
      ensures at + |BindBytes(rest[1..])| == old(at) + |BindBytes(rest)|
      ensures size + |Answers(mib, next, rest[1..])| == |Answers(mib, next, rest)| && end == old(end) + size
      ensures Built() + Answers(mib, next, rest[1..]) == old(Built()) + Answers(mib, next, rest)
      ensures Noted(Chosen(mib, next, rest[0].name.content), index, old(errorStatus), old(errorIndex))
    {
      hide Answer, Header, LastMissing, Nest, Answers, BindBytes;
      ghost var was, one := Built(), Nest(SNMP_SEQUENCE, rest[0].form, Answer(mib, next, rest[0]));
      FirstOfList(next, rest);
      Split(rest[0].Bytes(), BindBytes(rest[1..]));
      size := ParseSequence(next, index, rest[0]);
      assert was + one + Answers(mib, next, rest[1..]) == was + (one + Answers(mib, next, rest[1..]));
    }

    lemma FirstOfList(next: bool, rest: seq<VarBind>)
      requires GoodMib(mib) && GoodBinds(rest) && |rest| > 0
      ensures rest[0].Good() && GoodBinds(rest[1..]) && BindBytes(rest) == rest[0].Bytes() + BindBytes(rest[1..])
      ensures Answers(mib, next, rest)
           == Nest(SNMP_SEQUENCE, rest[0].form, Answer(mib, next, rest[0])) + Answers(mib, next, rest[1..])
    {}

    // The outcome of the binds seen so far.
    ghost predicate Recorded(e: int)
      reads this
    {
      if e == -1 then errorStatus == 0 else errorStatus == NO_SUCH_NAME && errorIndex == e
    }

    // The loop of parseSequenceOf.
    method ParseAll(next: bool, ghost binds: seq<VarBind>) returns (size: nat)
      requires Valid() && GoodBinds(binds) && errorStatus == 0
      requires Upcoming(BindBytes(binds)) && at + |BindBytes(binds)| == |request|
      requires end + |Answers(mib, next, binds)| <= MAX_LEN
      modifies this, response
      ensures Valid() && at == |request| && size == |Answers(mib, next, binds)| && end == old(end) + size
      ensures Built() == old(Built()) + Answers(mib, next, binds)
      ensures Recorded(LastMissing(mib, next, binds, 0, -1))
    {
      hide Answer, Header, Nest, Answers, BindBytes, LastMissing, Chosen;
      ghost var was := Built();
      size := 0;
      var index := 0;
      ghost var e, rest := -1, binds;
      while at < |request|
        invariant Valid() && index <= |binds| && rest == binds[index..]
        invariant Upcoming(BindBytes(rest)) && at + |BindBytes(rest)| == |request|
        invariant size + |Answers(mib, next, rest)| == |Answers(mib, next, binds)| && end == old(end) + size
        invariant Built() + Answers(mib, next, rest) == was + Answers(mib, next, binds)
        invariant LastMissing(mib, next, binds, index, e) == LastMissing(mib, next, binds, 0, -1)
        invariant Recorded(e)
        decreases |request| - at
      {
        ListEnds(next, rest);
        FirstOfList(next, rest);
        OneMore(next, binds, index, e);
        var more := ParseNext(next, index, rest);
        size := size + more;
        e := if Chosen(mib, next, rest[0].name.content) == -1 then index else e;
        rest := rest[1..];
        index := index + 1;
      }
      ListEnds(next, rest);
      OneMore(next, binds, index, e);
    }

    lemma ListEnds(next: bool, rest: seq<VarBind>)
      requires GoodMib(mib) && GoodBinds(rest)
      ensures |BindBytes(rest)| == 0 <==> rest == []
      ensures rest == [] ==> Answers(mib, next, rest) == []
    {}

    // One more bind is looked at.
    lemma OneMore(next: bool, binds: seq<VarBind>, index: nat, e: int)
      ensures LastMissing(mib, next, binds, index, e)
           == if index >= |binds| then e
              else LastMissing(mib, next, binds, index + 1,
                               if Chosen(mib, next, binds[index].name.content) == -1 then index else e)
    {}

    // parseSequenceOf: the size returned leaves out the header of the list.
    method ParseSequenceOf(next: bool, ghost form: nat, ghost binds: seq<VarBind>) returns (size: nat)
      requires Valid() && GoodBinds(binds) && errorStatus == 0
      requires Fits(form, |BindBytes(binds)|)
      requires Upcoming(Nest(SNMP_SEQUENCE, form, BindBytes(binds)))
      requires at + |Nest(SNMP_SEQUENCE, form, BindBytes(binds))| == |request|
      requires end + 2 + form + |Answers(mib, next, binds)| <= MAX_LEN
      modifies this, response
      ensures Valid() && at == |request| && size == |Answers(mib, next, binds)| && end == old(end) + 2 + form + size
      ensures Built() == old(Built()) + Nest(SNMP_SEQUENCE, form, Answers(mib, next, binds))
      ensures Recorded(LastMissing(mib, next, binds, 0, -1))
    {
      hide Answers, Header, LastMissing, BindBytes;
      ghost var was, n, all := Built(), |BindBytes(binds)|, Answers(mib, next, binds);
      Split(Header(SNMP_SEQUENCE, form, n), BindBytes(binds));
      var start, respLoc, seglen := Open(SNMP_SEQUENCE, form, n);
      size := ParseAll(next, binds);
      InsertLength(start, respLoc, size, was, SNMP_SEQUENCE, form, n, all);
      assert was + (Header(SNMP_SEQUENCE, form, size) + all) == was + Header(SNMP_SEQUENCE, form, size) + all;
    }

    method SetTag(pos: nat, ghost before: seq<byte>, ghost tag: byte, ghost form: nat, ghost n: nat)
      requires Valid() && Fits(form, n) && pos == |before| && Built() == before + Header(tag, form, n)
      modifies response
      ensures Built() == before + Header(GET_RESPONSE, form, n)
    {
      ghost var was := Built();
      response[pos] := GET_RESPONSE;
      assert Built() == was[pos := GET_RESPONSE];
      assert Header(tag, form, n)[0 := GET_RESPONSE] == Header(GET_RESPONSE, form, n);
    }

    // One octet of a value is overwritten.
    method Patch(pos: nat, value: byte, ghost before: seq<byte>, ghost t: Tlv, ghost after: seq<byte>)
      requires Valid() && Fits(t.form, |t.content|) && |t.content| > 0 && pos == |before| + 2 + t.form
      requires Built() == before + t.Bytes() + after
      modifies response
      ensures Built() == before + t.(content := t.content[0 := value]).Bytes() + after
    {
      ghost var was := Built();
      response[pos] := value;
      assert Built() == was[pos := value];
      assert t.Bytes()[2 + t.form := value] == t.(content := t.content[0 := value]).Bytes();
    }

    // The request identifier and the two error fields.
    method ParseFields(ghost id: Tlv, ghost status: Tlv, ghost place: Tlv)
      returns (statusAt: nat, placeAt: nat, size: nat)
      requires Valid() && id.Good() && status.Good() && place.Good()
      requires Upcoming(id.Bytes() + status.Bytes() + place.Bytes())
      requires end + |id.Bytes() + status.Bytes() + place.Bytes()| <= MAX_LEN
      modifies this`at, this`end, response
      ensures Valid() && size == |id.Bytes()| + |status.Bytes()| + |place.Bytes()|
      ensures at == old(at) + size && end == old(end) + size
      ensures statusAt == old(at) + |id.Bytes()| + 2 + status.form
      ensures placeAt == old(at) + |id.Bytes()| + |status.Bytes()| + 2 + place.form
      ensures Built() == old(Built()) + id.Bytes() + status.Bytes() + place.Bytes()
    {
      hide Tlv.Bytes;
      Split(id.Bytes() + status.Bytes(), place.Bytes());
      Split(id.Bytes(), status.Bytes());
      var start, more;
      ghost var v;
      start, v, size := CopyLeaf(id);
      start, statusAt, more := CopyLeaf(status);
      size := size + more;
      start, placeAt, more := CopyLeaf(place);
      size := size + more;
    }

    // The error fields of the response: written at the offsets they have in the request.
    method PutErrors(statusAt: nat, placeAt: nat, ghost r: Request, ghost before: seq<byte>, ghost after: seq<byte>)
      requires Valid() && r.status.Good() && r.place.Good() && |r.status.content| > 0 && |r.place.content| > 0
      requires Built() == before + r.status.Bytes() + r.place.Bytes() + after
      requires statusAt == |before| + 2 + r.status.form
      requires placeAt == |before + r.status.Bytes()| + 2 + r.place.form
      requires Recorded(Missing(mib, r))
      modifies response
      ensures Built() == before + Status(mib, r).Bytes() + Place(mib, r).Bytes() + after
    {
      hide Missing, Header;
      if errorStatus != 0 {
        assert before + r.status.Bytes() + r.place.Bytes() + after
               == before + r.status.Bytes() + (r.place.Bytes() + after);
        Patch(statusAt, errorStatus, before, r.status, r.place.Bytes() + after);
        ghost var st := Status(mib, r);
        assert before + st.Bytes() + (r.place.Bytes() + after) == (before + st.Bytes()) + r.place.Bytes() + after;
        Patch(placeAt, (errorIndex % 256 + 1) % 256, before + st.Bytes(), r.place, after);
      }
    }

    // parseRequest up to the insertion of its length
    method ParsePdu(ghost r: Request) returns (start: nat, respLoc: nat, statusAt: nat, placeAt: nat, size: nat)
      requires Valid() && r.Good() && errorStatus == 0
      requires at == end && Upcoming(Nest(r.Tag(), r.pduForm, r.PduBody()))
      requires at + |Nest(r.Tag(), r.pduForm, r.PduBody())| == |request|
      requires end + |PduResponse(mib, r)| <= MAX_LEN
      modifies this, response
      ensures Valid() && at == |request| && size == PduSize(mib, r) && respLoc == old(end)
      ensures start + 1 < |request| && request[start + 1] == Header(0, r.pduForm, |r.PduBody()|)[1]
      ensures statusAt == old(at) + 2 + r.pduForm + |r.id.Bytes()| + 2 + r.status.form
      ensures placeAt == old(at) + 2 + r.pduForm + |r.id.Bytes()| + |r.status.Bytes()| + 2 + r.place.form
      ensures Recorded(Missing(mib, r))
      ensures Built() == old(Built()) + Header(GET_RESPONSE, r.pduForm, |r.PduBody()|)
                         + r.id.Bytes() + r.status.Bytes() + r.place.Bytes()
                         + Nest(SNMP_SEQUENCE, r.listForm, Answers(mib, r.next, r.binds))
    {
      hide Header, LastMissing, Answers, BindBytes, Tlv.Bytes, Status, Place, Request.PduBody, PduResponse, Nest;
      PduResponseLength(mib, r);
      var ret, next;
      start, respLoc, statusAt, placeAt, size, next := ParseHead(r);
      ret := ParseSequenceOf(next, r.listForm, r.binds);
      size := size + ret;
    }

    // The PDU up to its list.
    method ParseHead(ghost r: Request)
      returns (start: nat, respLoc: nat, statusAt: nat, placeAt: nat, size: nat, next: bool)
      requires Valid() && r.Good() && at == end && Upcoming(Nest(r.Tag(), r.pduForm, r.PduBody()))
      requires end + 2 + r.pduForm + |r.id.Bytes()| + |r.status.Bytes()| + |r.place.Bytes()| <= MAX_LEN
      modifies this`at, this`end, response
      ensures Valid() && size == 2 + r.pduForm + |r.id.Bytes()| + |r.status.Bytes()| + |r.place.Bytes()|
      ensures at == old(at) + size && end == old(end) + size && respLoc == old(end) && next == r.next
      ensures start + 1 < |request| && request[start + 1] == Header(0, r.pduForm, |r.PduBody()|)[1]
      ensures statusAt == old(at) + 2 + r.pduForm + |r.id.Bytes()| + 2 + r.status.form
      ensures placeAt == old(at) + 2 + r.pduForm + |r.id.Bytes()| + |r.status.Bytes()| + 2 + r.place.form
      ensures Built() == old(Built()) + Header(GET_RESPONSE, r.pduForm, |r.PduBody()|)
                         + r.id.Bytes() + r.status.Bytes() + r.place.Bytes()
      ensures Upcoming(Nest(SNMP_SEQUENCE, r.listForm, BindBytes(r.binds)))
      ensures old(at) + |Nest(r.Tag(), r.pduForm, r.PduBody())|
              == at + |Nest(SNMP_SEQUENCE, r.listForm, BindBytes(r.binds))|
    {
      hide Header, BindBytes, Tlv.Bytes, Request.PduBody, Nest, Request.Tag;
      PduBodyParts(r);
      var seglen, three;
      start, respLoc, seglen, next := OpenPdu(r);
      Split(r.id.Bytes() + r.status.Bytes() + r.place.Bytes(), Nest(SNMP_SEQUENCE, r.listForm, BindBytes(r.binds)));
      statusAt, placeAt, three := ParseFields(r.id, r.status, r.place);
      size := seglen + three;
    }

    // Its start: the header is copied under the response's tag.
    method OpenPdu(ghost r: Request) returns (start: nat, respLoc: nat, seglen: nat, next: bool)
      requires Valid() && r.Good() && end + 2 + r.pduForm <= MAX_LEN
      requires at == end && Upcoming(Nest(r.Tag(), r.pduForm, r.PduBody()))
      modifies this`at, this`end, response
      ensures Valid() && seglen == 2 + r.pduForm && at == old(at) + seglen && end == old(end) + seglen
      ensures start == old(at) && respLoc == old(end) && next == r.next && Upcoming(r.PduBody())
      ensures start + 1 < |request| && request[start + 1] == Header(0, r.pduForm, |r.PduBody()|)[1]
      ensures Built() == old(Built()) + Header(GET_RESPONSE, r.pduForm, |r.PduBody()|)
    {
      hide Header, BindBytes, Tlv.Bytes;
      ghost var was, n, tag := Built(), |r.PduBody()|, r.Tag();
      Split(Header(tag, r.pduForm, n), r.PduBody());
      assert request[at] == request[at..at + 2 + r.pduForm][0];
      start, respLoc, seglen := Open(tag, r.pduForm, n);
      next := request[start] == GET_NEXT_REQUEST;
      SetTag(start, was, tag, r.pduForm, n);
    }

    // parseRequest
    method ParseRequest(ghost r: Request) returns (size: nat)
      requires Valid() && r.Good() && errorStatus == 0
      requires at == end && Upcoming(Nest(r.Tag(), r.pduForm, r.PduBody()))
      requires at + |Nest(r.Tag(), r.pduForm, r.PduBody())| == |request|
      requires end + |PduResponse(mib, r)| <= MAX_LEN
      modifies this, response
      ensures Valid() && at == |request| && size == PduSize(mib, r) && end == old(end) + |PduResponse(mib, r)|
      ensures Built() == old(Built()) + PduResponse(mib, r)
    {
      hide Header, LastMissing, Answers, BindBytes, Tlv.Bytes, Status, Place, PduSize, Missing, Request.PduBody,
           PduResponse;
      PduResponseLength(mib, r);
      ghost var was, n := Built(), |r.PduBody()|;
      ghost var x, y, z := r.id.Bytes(), r.status.Bytes(), r.place.Bytes();
      ghost var answers := Nest(SNMP_SEQUENCE, r.listForm, Answers(mib, r.next, r.binds));
      var start, respLoc, statusAt, placeAt;
      start, respLoc, statusAt, placeAt, size := ParsePdu(r);
      ghost var h := Header(GET_RESPONSE, r.pduForm, n);
      assert was + h + x + y + z + answers == was + h + (x + y + z + answers);
      InsertLength(start, respLoc, size, was, GET_RESPONSE, r.pduForm, n, x + y + z + answers);
      h := Header(GET_RESPONSE, r.pduForm, size);
      assert was + h + (x + y + z + answers) == was + h + x + y + z + answers;
      PutErrors(statusAt, placeAt, r, was + h + x, answers);
      PduResponseParts(mib, r, was);
    }

    // A whole element is copied, and what follows it comes next.
    method CopyElement(start: nat, seglen: nat, ghost t: Tlv, ghost rest: seq<byte>)
      requires Valid() && t.form <= 2 && start == at && seglen == |t.Bytes()| && end + seglen <= MAX_LEN
      requires Upcoming(t.Bytes() + rest)
      modifies this`at, this`end, response
      ensures Valid() && at == old(at) + seglen && end == old(end) + seglen
      ensures Built() == old(Built()) + t.Bytes() && Upcoming(rest)
    {
      hide Tlv.Bytes;
      Split(t.Bytes(), rest);
      Copy(start, seglen);
    }

    // parseCommunity: -1 refuses the request.
    method ParseCommunity(ghost r: Request) returns (size: int)
      requires Valid() && r.Good() && errorStatus == 0
      requires at == end && Upcoming(r.community.Bytes() + Nest(r.Tag(), r.pduForm, r.PduBody()))
      requires at + |r.community.Bytes()| + |Nest(r.Tag(), r.pduForm, r.PduBody())| == |request|
      requires end + |r.community.Bytes()| + |PduResponse(mib, r)| <= MAX_LEN
      modifies this, response
      ensures Valid()
      ensures if r.community.tag == ASN_OCTETSTRING && r.community.content == COMMUNITY
              then at == |request| && size == |r.community.Bytes()| + PduSize(mib, r)
                   && Built() == old(Built()) + r.community.Bytes() + PduResponse(mib, r)
              else size == -1
    {
      hide Header, Tlv.Bytes, PduSize, PduResponse, Answers, BindBytes, Request.PduBody, Nest, Request.Tag;
      Split(r.community.Bytes(), Nest(r.Tag(), r.pduForm, r.PduBody()));
      TlvSplit(r.community);
      TagFirst(r.community);
      var start, len, vstart, nstart := ParseTlv(r.community.tag, r.community.form, |r.community.content|);
      if !(request[start] == ASN_OCTETSTRING && len == |COMMUNITY|) {
        return -1;
      }
      if request[vstart..vstart + len] != COMMUNITY {
        return -1;
      }
      var seglen := nstart - start;
      CopyElement(start, seglen, r.community, Nest(r.Tag(), r.pduForm, r.PduBody()));
      var more := ParseRequest(r);
      return seglen + more;
    }

    lemma TagFirst(t: Tlv)
      requires t.Good() && Upcoming(t.Bytes())
      ensures at < |request| && request[at] == t.tag && |t.Bytes()| == 2 + t.form + |t.content|
    {
      assert request[at] == request[at..at + |t.Bytes()|][0];
    }

    lemma ContentFirst(t: Tlv)
      requires t.Good() && Upcoming(t.Bytes()) && |t.content| > 0
      ensures at + 2 + t.form < |request| && request[at + 2 + t.form] == t.content[0]
    {
      var n := 2 + t.form;
      assert t.Bytes()[n] == t.content[0];
      assert request[at..at + |t.Bytes()|][n] == request[at + n];
    }

    // parseVersion
    method ParseVersion(ghost r: Request) returns (size: int)
      requires Valid() && r.Good() && errorStatus == 0
      requires at == end && Upcoming(r.Body()) && at + |r.Body()| == |request|
      requires end + |r.version.Bytes()| + |r.community.Bytes()| + |PduResponse(mib, r)| <= MAX_LEN
      modifies this, response
      ensures Valid()
      ensures if r.Accepted()
              then at == |request| && size == |r.version.Bytes()| + |r.community.Bytes()| + PduSize(mib, r)
                   && Built() == old(Built()) + r.version.Bytes() + r.community.Bytes() + PduResponse(mib, r)
              else size == -1
    {
      hide Header, Tlv.Bytes, PduSize, PduResponse, Answers, BindBytes, Request.PduBody, Nest;
      ghost var pdu := Nest(r.Tag(), r.pduForm, r.PduBody());
      assert r.Body() == r.version.Bytes() + (r.community.Bytes() + pdu);
      Split(r.version.Bytes(), r.community.Bytes() + pdu);
      TlvSplit(r.version);
      TagFirst(r.version);
      ContentFirst(r.version);
      var start, len, vstart, nstart := ParseTlv(r.version.tag, r.version.form, |r.version.content|);
      if !(request[start] == ASN_INTEGER && request[vstart] == 0) {
        return -1;
      }
      var seglen := nstart - start;
      CopyElement(start, seglen, r.version, r.community.Bytes() + pdu);
      size := ParseCommunity(r);
      if size != -1 {
        size := size + seglen;
      }
    }

    // parse_snmp, from the start of both buffers: either the whole request is consumed and the
    // response built, or the request is refused.
    method Parse(ghost r: Request) returns (ok: bool)
      requires Valid() && r.Good() && |Response(mib, r)| <= MAX_LEN && request == r.Bytes()
      requires at == 0 && end == 0 && errorStatus == 0
      modifies this, response
      ensures Valid() && ok == r.Accepted()
      ensures ok ==> at == |request| && Built() == Response(mib, r)
    {
      hide Header, Tlv.Bytes, PduSize, PduResponse, Missing, Answers, BindBytes, Request.Body, Request.PduBody;
      ghost var n, body := |r.Body()|, r.Body();
      assert request[at..at + |request|] == request == Header(SNMP_SEQUENCE, r.form, n) + body;
      Split(Header(SNMP_SEQUENCE, r.form, n), body);
      assert request[0] == SNMP_SEQUENCE;
      assert Built() == [];
      var start, respLoc, seglen := Open(SNMP_SEQUENCE, r.form, n);
      var size := ParseVersion(r);
      if size == -1 {
        return false;
      }
      ghost var after := r.version.Bytes() + r.community.Bytes() + PduResponse(mib, r);
      size := size + seglen;
      InsertLength(start, respLoc, size, [], SNMP_SEQUENCE, r.form, n, after);
      return true;
    }
  }
}
