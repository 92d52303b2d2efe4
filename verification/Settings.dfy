// Saving the configuration fields as JSON text and reading them back
// (pi-pico/jsonconf.cpp:17-80, 145-157, 159-237, 240-304, 318-327).
module Settings {
  import Bytes
  import opened Numerals
  import opened JsonConf

  datatype Kind = Flag | Uint8 | Uint16 | Uint32 | Address | Decimal | Text13 | Text32

  datatype Field = Field(name: string, kind: Kind, deflt: string)

  // A number (flags, integers, addresses) or a text. A floating-point field is its text.
  datatype Value = Num(n: nat) | Text(s: string)

  predicate Typed(kind: Kind, v: Value) {
    match kind
    case Flag | Uint8 => v.Num? && v.n < 0x100
    case Uint16 => v.Num? && v.n < 0x1_0000
    case Uint32 | Address => v.Num? && v.n < WORD
    case Decimal | Text13 | Text32 => v.Text?
  }

  // A C string that can stand between quotes.
  predicate Plain(s: string) {
    forall i | 0 <= i < |s| :: s[i] != '"' && s[i] != '\0'
  }

  // A text that needs no quotes around it.
  predicate Bare(s: string) {
    && s != "" && s[0] != ' ' && Plain(s)
    && forall i | 0 <= i < |s| :: s[i] != ',' && s[i] != '\r' && s[i] != '\n'
  }

  // The values the file can hold.
  predicate Fits(kind: Kind, v: Value) {
    && Typed(kind, v)
    && match kind
       case Flag => v.n <= 1
       case Uint8 | Uint16 | Uint32 | Address => true
       case Decimal => Bare(v.s) && |v.s| < 32
       case Text13 => Plain(v.s) && |v.s| < 13
       case Text32 => Plain(v.s) && |v.s| < 32
  }

  predicate NeedsQuote(kind: Kind) {
    kind == Address || kind == Text13 || kind == Text32
  }

  // config_val
  function Show(kind: Kind, v: Value): string
    requires Typed(kind, v)
  {
    match kind
    case Flag => if v.n != 0 then "true" else "false"
    case Uint8 | Uint16 => Print(v.n)
    case Uint32 => PrintSigned(v.n)
    case Address => Dotted(Bytes.BigEndian(v.n))
    case Decimal | Text13 | Text32 => Clip(v.s, VALUE_SIZE - 1)
  }

  function Clip(s: string, limit: nat): string {
    if |s| > limit then s[..limit] else s
  }

  // config_val_set: the text found in the file, or the default.
  function Set(field: Field, found: Answer, before: Value): Value {
    var s := if found.Found? then found.text else field.deflt;
    match field.kind
    case Flag => Num(if s == "true" then 1 else 0)
    case Uint8 => Num(Atoi(s) % 0x100)
    case Uint16 => Num(Atoi(s) % 0x1_0000)
    case Uint32 => Num(Atoi(s) % WORD)
    case Address =>
      var p := ScanDotted(s, 4);
      if |p| == 4 then Num(Packed(p)) else before
    case Decimal => Text(s)
    case Text13 => Text(Clip(s, 12))
    case Text32 => Text(Clip(s, 31))
  }

  // What a field is worth after the file has been read.
  function Restored(field: Field, doc: string, before: Value): Value {
    Set(field, Lookup(doc, field.name), before)
  }

  // ---------- A field is restored from its own text ----------

  lemma SetNumber(field: Field, n: nat, found: Answer, before: Value, s: string)
    requires field.kind in {Uint8, Uint16, Uint32} && Typed(field.kind, Num(n))
    requires s == if found.Found? then found.text else field.deflt
    requires Atoi(s) % WORD == n && (n < 0x1_0000 ==> Atoi(s) == n)
    ensures Set(field, found, before) == Num(n)
  {
  }

  lemma NumberShown(kind: Kind, n: nat, s: string)
    requires kind in {Uint8, Uint16, Uint32} && Typed(kind, Num(n)) && s == Show(kind, Num(n))
    ensures Atoi(s) % WORD == n && (n < 0x1_0000 ==> Atoi(s) == n)
  {
    AtoiPrinted(n);
  }

  lemma SetShown(field: Field, v: Value, found: Answer, before: Value)
    requires Fits(field.kind, v)
    requires (if found.Found? then found.text else field.deflt) == Show(field.kind, v)
    ensures Set(field, found, before) == v
  {
    match v
    case Num(n) =>
      if field.kind == Address {
        AddressRoundTrip(n);
      } else if field.kind != Flag {
        NumberShown(field.kind, n, Show(field.kind, v));
        SetNumber(field, n, found, before, Show(field.kind, v));
      }
    case Text(s) =>
  }

  // What stands in the file, and what is made of it.
  lemma InTheFile()
    ensures Show(Flag, Num(0)) == "false" && Show(Flag, Num(1)) == "true"
    ensures Show(Uint8, Num(24)) == "24" && Show(Uint32, Num(0xFFFF_FFFF)) == "-1"
    ensures Show(Address, Num(0xC0A8_0001)) == "192.168.0.1" && Show(Text13, Text("N0CALL")) == "N0CALL"
  {
    hide Print, Dotted, Bytes.BigEndian;
    PrintedNumbers();
    Bytes.AddressOnAir();
    PrintedAddress();
  }

  lemma PrintedNumbers()
    ensures Print(0) == "0" && Print(1) == "1" && Print(24) == "24" && Print(168) == "168" && Print(192) == "192"
  {
    assert Print(2) == "2" && Print(24) == Print(2) + "4";
    assert Print(19) == Print(1) + "9" && Print(192) == Print(19) + "2";
    assert Print(16) == Print(1) + "6" && Print(168) == Print(16) + "8";
  }

  lemma PrintedAddress()
    ensures Dotted([192, 168, 0, 1]) == "192.168.0.1"
  {
    hide Print, Dotted;
    PrintedNumbers();
    DottedMore(1, []);
    DottedMore(0, [1]);
    DottedMore(168, [0, 1]);
    DottedMore(192, [168, 0, 1]);
    assert [1] + [] == [1] && [0] + [1] == [0, 1];
    assert [168] + [0, 1] == [168, 0, 1] && [192] + [168, 0, 1] == [192, 168, 0, 1];
  }

  lemma DottedMore(x: nat, rest: seq<nat>)
    ensures Dotted([x] + rest) == Print(x) + if rest == [] then "" else "." + Dotted(rest)
  {
    hide Print;
    assert ([x] + rest)[1..] == rest;
    assert Print(x) + "" == Print(x);
  }

  lemma OutOfTheFile(field: Field, before: Value)
    ensures field.kind == Flag ==> forall s :: Set(field, Found(s), before) == Num(if s == "true" then 1 else 0)
    ensures field.kind == Uint8 ==> Set(field, Found("24"), before) == Num(24)
    ensures field.kind == Uint32 ==> Set(field, Found("-1"), before) == Num(0xFFFF_FFFF)
    ensures field.kind == Address ==> Set(field, Found("192.168.0.1"), before) == Num(0xC0A8_0001)
    // Whatever the reason, without a value the field takes its default.
    ensures forall found: Answer | !found.Found? :: Set(field, found, before) == Set(field, Found(field.deflt), before)
  {
    InTheFile();
    if field.kind == Uint8 {
      SetShown(field, Num(24), Found("24"), before);
    } else if field.kind == Uint32 {
      SetShown(field, Num(0xFFFF_FFFF), Found("-1"), before);
    } else if field.kind == Address {
      SetShown(field, Num(0xC0A8_0001), Found("192.168.0.1"), before);
    }
  }

  // A name too long for its field is cut, and what is no address leaves the old one.
  lemma TooLong(field: Field, s: string, before: Value)
    ensures field.kind == Text13 ==> Set(field, Found(s), before) == Text(if |s| > 12 then s[..12] else s)
    ensures field.kind == Address && |ScanDotted(s, 4)| != 4 ==> Set(field, Found(s), before) == before
  {
    hide ScanDotted;
  }

  // A number too big for its field is cut to its low bits.
  lemma NumbersCut(field: Field, n: nat, before: Value)
    requires n < 0x1_0000_0000
    ensures field.kind == Uint8 ==> Set(field, Found(PrintSigned(n)), before) == Num(n % 0x100)
    ensures field.kind == Uint16 ==> Set(field, Found(PrintSigned(n)), before) == Num(n % 0x1_0000)
    ensures field.kind == Uint32 ==> Set(field, Found(PrintSigned(n)), before) == Num(n)
  {
    AtoiPrinted(n);
    LowBits(Atoi(PrintSigned(n)), n);
  }

  lemma LowBits(a: int, n: nat)
    requires a % 0x1_0000_0000 == n
    ensures a % 0x100 == n % 0x100 && a % 0x1_0000 == n % 0x1_0000
  {
    var q := a / 0x1_0000_0000;
    LowByte(0x100_0000 * q, n);
    LowWord(0x1_0000 * q, n);
  }

  lemma LowByte(k: int, n: nat)
    ensures (0x100 * k + n) % 0x100 == n % 0x100
  {}

  lemma LowWord(k: int, n: nat)
    ensures (0x1_0000 * k + n) % 0x1_0000 == n % 0x1_0000
  {}

  // A flag holding anything but 0 and 1 is lost: restoring it gives 1.
  lemma FlagRoundTrip(field: Field, n: nat, before: Value)
    requires field.kind == Flag && n < 0x100
    ensures Set(field, Found(Show(Flag, Num(n))), before) == Num(n) <==> n <= 1
  {
  }

  lemma ShownShape(kind: Kind, v: Value)
    requires Fits(kind, v)
    ensures |Show(kind, v)| < 32 && Plain(Show(kind, v))
    ensures !NeedsQuote(kind) ==> Bare(Show(kind, v))
  {
    hide Print, PrintSigned, Dotted;
    match kind
    case Uint8 | Uint16 => PrintedShape(v.n);
    case Uint32 => SignedShape(v.n);
    case Address => DottedLength(Bytes.BigEndian(v.n));
    case Flag | Decimal | Text13 | Text32 =>
  }

  lemma PrintedShape(n: nat)
    requires n < WORD
    ensures |Print(n)| < 31 && Bare(Print(n))
  {
    hide Print;
    TenDigits();
    PrintLength(n, 10);
  }

  lemma SignedShape(n: nat)
    requires n < WORD
    ensures |PrintSigned(n)| < 32 && Bare(PrintSigned(n))
  {
    hide Print;
    PrintedShape(n);
    if n >= WORD / 2 {
      PrintedShape(WORD - n);
    }
  }

  lemma TenDigits()
    ensures TenTo(10) == 10_000_000_000
  {
    assert TenTo(3) == 1000;
    assert TenTo(6) == 1000 * TenTo(3);
    assert TenTo(9) == 1000 * TenTo(6);
  }

  // ---------- The text ----------

  // One member of the object; config_write keeps 127 characters.
  function Line(first: bool, field: Field, text: string): string {
    var quote := if NeedsQuote(field.kind) then "\"" else "";
    (if first then "" else ",") + "\r\n\"" + field.name + "\": " + quote + text + quote
  }

  predicate Sized(fields: seq<Field>, values: seq<Value>) {
    |fields| == |values| && forall i | 0 <= i < |fields| :: Typed(fields[i].kind, values[i])
  }

  function Texts(fields: seq<Field>, values: seq<Value>): (t: seq<string>)
    requires Sized(fields, values)
    ensures |t| == |fields| && forall i | 0 <= i < |fields| :: t[i] == Show(fields[i].kind, values[i])
  {
    seq(|fields|, i requires 0 <= i < |fields| => Show(fields[i].kind, values[i]))
  }

  // A field is left out of the file when it has its default value.
  predicate Written(field: Field, text: string) {
    text != field.deflt
  }

  function Body(fields: seq<Field>, texts: seq<string>, i: nat, first: bool): string
    requires |fields| == |texts| && i <= |fields|
    decreases |fields| - i
  {
    if i == |fields| then ""
    else if !Written(fields[i], texts[i]) then Body(fields, texts, i + 1, first)
    else Clip(Line(first, fields[i], texts[i]), WRITE_SIZE - 1) + Body(fields, texts, i + 1, false)
  }

  const TAIL := "\r\n}\r\n"

  function Document(fields: seq<Field>, values: seq<Value>): string
    requires Sized(fields, values)
  {
    "{" + Body(fields, Texts(fields, values), 0, true) + TAIL
  }

  // A member in the file, first or behind another one, quoted or not.
  lemma LinesInTheFile(f: Field, text: string)
    ensures !NeedsQuote(f.kind) ==> Line(true, f, text) == "\r\n\"" + f.name + "\": " + text
    ensures NeedsQuote(f.kind) ==> Line(false, f, text) == ",\r\n\"" + f.name + "\": \"" + text + "\""
  {}

  predicate AllFit(fields: seq<Field>, values: seq<Value>) {
    |fields| == |values| && forall i | 0 <= i < |fields| :: Fits(fields[i].kind, values[i])
  }

  predicate GoodTable(fields: seq<Field>) {
    && (forall i | 0 <= i < |fields| :: GoodName(fields[i].name))
    && forall i, j | 0 <= i < j < |fields| :: fields[i].name != fields[j].name
  }

  // ---------- Where one member lies ----------

  function NameStart(off: nat, first: bool): nat {
    off + if first then 3 else 4
  }

  function ValueStart(off: nat, first: bool, f: Field): nat {
    NameStart(off, first) + |f.name| + 3
  }

  function LineEnd(off: nat, first: bool, f: Field, text: string): nat {
    ValueStart(off, first, f) + |text| + if NeedsQuote(f.kind) then 2 else 0
  }

  // A member stands at off, spelt out character by character: its name, then its value.
  ghost predicate NameAt(doc: string, off: nat, first: bool, f: Field) {
    var n0, v0 := NameStart(off, first), ValueStart(off, first, f);
    && v0 <= |doc|
    && (!first ==> doc[off] == ',')
    && doc[n0 - 3] == '\r' && doc[n0 - 2] == '\n' && doc[n0 - 1] == '"'
    && doc[n0..n0 + |f.name|] == f.name
    && doc[v0 - 3] == '"' && doc[v0 - 2] == ':' && doc[v0 - 1] == ' '
  }

  ghost predicate TextAt(doc: string, v0: nat, quoted: bool, text: string) {
    && v0 + |text| + (if quoted then 2 else 0) <= |doc|
    && (if quoted
        then doc[v0] == '"' && doc[v0 + 1..v0 + 1 + |text|] == text && doc[v0 + 1 + |text|] == '"'
        else doc[v0..v0 + |text|] == text)
  }

  ghost predicate LineAt(doc: string, off: nat, first: bool, f: Field, text: string) {
    NameAt(doc, off, first, f) && TextAt(doc, ValueStart(off, first, f), NeedsQuote(f.kind), text)
  }

  // What stands behind a member.
  ghost predicate Follows(doc: string, end: nat) {
    || (end + 1 < |doc| && doc[end] == '\r' && doc[end + 1] == '\n')
    || (end + 2 < |doc| && doc[end] == ',' && doc[end + 1] == '\r' && doc[end + 2] == '\n')
  }

  // Texts the printer can produce, under good names.
  ghost predicate Orderly(fields: seq<Field>, texts: seq<string>) {
    && |fields| == |texts| && GoodTable(fields)
    && forall i | 0 <= i < |fields| :: Printable(fields[i].kind, texts[i])
  }

  predicate Printable(kind: Kind, text: string) {
    |text| < 32 && Plain(text) && (NeedsQuote(kind) || Bare(text))
  }

  // The members from i on stand in the text from off on, then its tail.
  ghost predicate Laid(doc: string, off: nat, fields: seq<Field>, texts: seq<string>, i: nat, first: bool)
    requires |fields| == |texts| && i <= |fields|
    decreases |fields| - i
  {
    if i == |fields| then off <= |doc| && doc[off..] == TAIL
    else if !Written(fields[i], texts[i]) then Laid(doc, off, fields, texts, i + 1, first)
    else
      var f, text := fields[i], texts[i];
      var end := LineEnd(off, first, f, text);
      LineAt(doc, off, first, f, text) && Follows(doc, end) && Laid(doc, end, fields, texts, i + 1, false)
  }

  // A part of a stretch of the text.
  lemma Part(doc: string, off: nat, end: nat, x: string, y: string, z: string)
    requires off <= end <= |doc| && doc[off..end] == x + y + z
    ensures doc[off + |x|..off + |x| + |y|] == y
    ensures forall i | off + |x| <= i < off + |x| + |y| :: doc[i] == y[i - off - |x|]
  {
    var line := doc[off..end];
    assert line[|x|..|x| + |y|] == y;
    forall i | off + |x| <= i < off + |x| + |y| ensures doc[i] == y[i - off - |x|] {
      assert doc[i] == line[i - off];
    }
  }

  lemma ValueSpelt(doc: string, off: nat, end: nat, head: string, text: string, quoted: bool)
    requires off <= end <= |doc|
    requires var quote := if quoted then "\"" else ""; doc[off..end] == head + (quote + text + quote)
    ensures TextAt(doc, off + |head|, quoted, text)
  {
    if quoted {
      var q := "\"";
      assert doc[off..end] == head + q + (text + q) == head + q + text + q == head + q + text + q + "";
      Part(doc, off, end, head, q, text + q);
      Part(doc, off, end, head + q, text, q);
      Part(doc, off, end, head + q + text, q, "");
    } else {
      assert doc[off..end] == head + text + "";
      Part(doc, off, end, head, text, "");
    }
  }

  lemma NameSpelt(doc: string, off: nat, end: nat, first: bool, f: Field, value: string)
    requires off <= end <= |doc|
    requires doc[off..end] == (if first then "" else ",") + "\r\n\"" + f.name + "\": " + value
    ensures NameAt(doc, off, first, f)
  {
    FourParts(doc, off, end, if first then "\r\n\"" else ",\r\n\"", f.name, "\": ", value);
  }

  lemma LineSpelt(doc: string, off: nat, first: bool, f: Field, text: string)
    requires LineEnd(off, first, f, text) <= |doc|
    requires doc[off..LineEnd(off, first, f, text)] == Line(first, f, text)
    ensures LineAt(doc, off, first, f, text)
  {
    var end := LineEnd(off, first, f, text);
    var quote := if NeedsQuote(f.kind) then "\"" else "";
    var head := (if first then "" else ",") + "\r\n\"" + f.name + "\": ";
    assert Line(first, f, text) == head + (quote + text + quote);
    NameSpelt(doc, off, end, first, f, quote + text + quote);
    ValueSpelt(doc, off, end, head, text, NeedsQuote(f.kind));
  }

  lemma FourParts(doc: string, off: nat, end: nat, a: string, b: string, c: string, d: string)
    requires off <= end <= |doc| && doc[off..end] == a + b + c + d
    ensures forall i | off <= i < off + |a| :: doc[i] == a[i - off]
    ensures doc[off + |a|..off + |a| + |b|] == b
    ensures forall i | off + |a| + |b| <= i < off + |a| + |b| + |c| :: doc[i] == c[i - off - |a| - |b|]
  {
    assert a + b + c + d == "" + a + (b + c + d) == a + b + (c + d);
    Part(doc, off, end, "", a, b + c + d);
    Part(doc, off, end, a, b, c + d);
    Part(doc, off, end, a + b, c, d);
  }

  // Nothing of a fitting member is clipped.
  lemma BodyLine(fields: seq<Field>, texts: seq<string>, i: nat, first: bool)
    requires Orderly(fields, texts) && i < |fields| && Written(fields[i], texts[i])
    ensures Body(fields, texts, i, first)
            == Line(first, fields[i], texts[i]) + Body(fields, texts, i + 1, false)
  {
    assert |Line(first, fields[i], texts[i])| < WRITE_SIZE;
  }

  // What is left of the text starts a new line, after a comma where a member follows.
  lemma {:induction false} BodyStart(fields: seq<Field>, texts: seq<string>, i: nat)
    requires |fields| == |texts| && i <= |fields|
    ensures Follows(Body(fields, texts, i, false) + TAIL, 0)
    decreases |fields| - i
  {
    if i == |fields| {
      assert Body(fields, texts, i, false) + TAIL == TAIL;
    } else if Written(fields[i], texts[i]) {
      var line := Line(false, fields[i], texts[i]);
      assert |line| > 3 && line[0] == ',' && line[1] == '\r' && line[2] == '\n';
    } else {
      BodyStart(fields, texts, i + 1);
    }
  }

  lemma FollowsAt(doc: string, end: nat, rest: string)
    requires end <= |doc| && doc[end..] == rest && Follows(rest, 0)
    ensures Follows(doc, end)
  {
    assert forall i | 0 <= i < |rest| :: doc[end + i] == rest[i];
  }

  lemma {:induction false} BodyLaid(doc: string, off: nat, fields: seq<Field>, texts: seq<string>, i: nat,
                                    first: bool)
    requires Orderly(fields, texts) && i <= |fields|
    requires off <= |doc| && doc[off..] == Body(fields, texts, i, first) + TAIL
    ensures Laid(doc, off, fields, texts, i, first)
    decreases |fields| - i
  {
    hide Line, LineAt, GoodTable, Printable, Clip, Follows;
    if i == |fields| {
      assert doc[off..] == TAIL;
    } else if !Written(fields[i], texts[i]) {
      BodyLaid(doc, off, fields, texts, i + 1, first);
    } else {
      var f, text := fields[i], texts[i];
      var line, rest := Line(first, f, text), Body(fields, texts, i + 1, false) + TAIL;
      BodyLine(fields, texts, i, first);
      CutLine(doc, off, first, f, text, rest);
      var end := LineEnd(off, first, f, text);
      BodyStart(fields, texts, i + 1);
      FollowsAt(doc, end, rest);
      BodyLaid(doc, end, fields, texts, i + 1, false);
    }
  }

  lemma CutLine(doc: string, off: nat, first: bool, f: Field, text: string, rest: string)
    requires off <= |doc| && doc[off..] == Line(first, f, text) + rest
    ensures var end := LineEnd(off, first, f, text); end <= |doc| && doc[end..] == rest
    ensures LineAt(doc, off, first, f, text)
  {
    var line, end := Line(first, f, text), LineEnd(off, first, f, text);
    assert |line| == end - off;
    assert doc[off..end] == doc[off..][..|line|] == line;
    assert doc[end..] == doc[off..][|line|..] == rest;
    LineSpelt(doc, off, first, f, text);
  }

  // ---------- Keys in a member ----------

  // The only place in a member where the search can stop is the name.
  lemma LineKeys(doc: string, off: nat, first: bool, f: Field, text: string, key: string, p: nat)
    requires LineAt(doc, off, first, f, text) && Follows(doc, LineEnd(off, first, f, text))
    requires GoodName(f.name) && GoodName(key) && Plain(text)
    requires KeyAt(doc, key, p) && off <= p + |key| < LineEnd(off, first, f, text)
    ensures p == NameStart(off, first) && key == f.name
  {
    var n0, v0, end := NameStart(off, first), ValueStart(off, first, f), LineEnd(off, first, f, text);
    var c := p + |key|;
    NameChars(doc, key, p);
    NameChars(doc, f.name, n0);
    assert GoodChar(doc[c - 1]);
    assert c != n0 - 1 && c != v0;
    if NeedsQuote(f.kind) {
      assert forall i | v0 + 1 <= i < end - 1 :: doc[i] == text[i - v0 - 1];
      assert SkipSpaces(doc, end) == end;
    } else {
      assert forall i | v0 <= i < end :: doc[i] == text[i - v0];
    }
    assert c == v0 - 3;
    assert p == n0;
  }

  // The search does stop at the name, and takes the value.
  lemma LineNamed(doc: string, off: nat, first: bool, f: Field, text: string)
    requires LineAt(doc, off, first, f, text) && GoodName(f.name)
    requires NeedsQuote(f.kind) || Bare(text)
    ensures var n0 := NameStart(off, first);
            KeyAt(doc, f.name, n0) && ValueAt(doc, f.name, n0) == ValueStart(off, first, f)
  {
    var v0 := ValueStart(off, first, f);
    assert SkipSpaces(doc, v0 - 2) == v0 - 2;
    assert doc[v0] != ' ' by {
      if !NeedsQuote(f.kind) { assert doc[v0] == doc[v0..v0 + |text|][0]; }
    }
    assert SkipSpaces(doc, v0) == v0;
    assert SkipSpaces(doc, v0 - 1) == v0;
  }

  // The characters in front of the first quote.
  function Unquoted(text: string): (n: nat)
    ensures n <= |text| && (forall i | 0 <= i < n :: text[i] != '"') && (n < |text| ==> text[n] == '"')
  {
    if text == "" || text[0] == '"' then 0 else 1 + Unquoted(text[1..])
  }

  lemma FirstQuote(doc: string, from: nat, end: nat)
    requires from <= end < |doc| && doc[end] == '"' && forall i | from <= i < end :: doc[i] != '"'
    ensures FindChar(doc, '"', from) == end
  {}

  lemma UpToQuote(doc: string, v0: nat, text: string)
    requires TextAt(doc, v0, true, text)
    ensures FindChar(doc, '"', v0 + 1) == v0 + 1 + Unquoted(text)
    ensures doc[v0 + 1..v0 + 1 + Unquoted(text)] == text[..Unquoted(text)]
  {
    hide Unquoted, FindChar;
    var n, all := Unquoted(text), doc[v0 + 1..v0 + 1 + |text|];
    forall i | v0 + 1 <= i < v0 + 1 + n ensures doc[i] != '"' {
      assert doc[i] == all[i - v0 - 1];
    }
    if n < |text| {
      assert doc[v0 + 1 + n] == all[n];
    }
    FirstQuote(doc, v0 + 1, v0 + 1 + n);
    assert doc[v0 + 1..v0 + 1 + n] == all[..n];
  }

  // Of a quoted text what stands in front of its first quote is found: the text itself exactly
  // when it has none.
  lemma QuotedValue(doc: string, v0: nat, text: string)
    requires TextAt(doc, v0, true, text) && |text| < VALUE_SIZE
    ensures Extract(doc, v0) == Found(text[..Unquoted(text)])
    ensures Extract(doc, v0) == Found(text) <==> forall i | 0 <= i < |text| :: text[i] != '"'
  {
    hide Unquoted, FindChar, BareEnd;
    UpToQuote(doc, v0, text);
    WithoutQuote(text);
    assert Extract(doc, v0) == Found(text[..Unquoted(text)]);
  }

  lemma WithoutQuote(text: string)
    ensures text[..Unquoted(text)] == text <==> forall i | 0 <= i < |text| :: text[i] != '"'
  {
    hide Unquoted;
    if Unquoted(text) == |text| {
      assert text[..|text|] == text;
    }
  }

  lemma BareValue(doc: string, v0: nat, text: string)
    requires TextAt(doc, v0, false, text) && Bare(text) && |text| < VALUE_SIZE
    requires Follows(doc, v0 + |text|)
    ensures Extract(doc, v0) == Found(text)
  {
    var end := v0 + |text|;
    assert forall i | v0 <= i < end :: doc[i] == text[i - v0];
    var e0, e1, e2 := FindChar(doc, ',', v0), FindChar(doc, '\r', v0), FindChar(doc, '\n', v0);
    assert BareEnd(doc, v0, 1) == e0;
    assert BareEnd(doc, v0, 2) == Earlier(e0, e1);
    assert BareEnd(doc, v0, 3) == Earlier(Earlier(e0, e1), e2) == end;
  }

  lemma LineValue(doc: string, off: nat, first: bool, f: Field, text: string)
    requires LineAt(doc, off, first, f, text) && Follows(doc, LineEnd(off, first, f, text))
    requires Printable(f.kind, text)
    ensures Extract(doc, ValueStart(off, first, f)) == Found(text)
  {
    if NeedsQuote(f.kind) {
      QuotedValue(doc, ValueStart(off, first, f), text);
    } else {
      BareValue(doc, ValueStart(off, first, f), text);
    }
  }

  // ---------- Keys in the whole text ----------

  // A key that no member left to come carries is not found from here on.
  lemma {:induction false} NoKey(doc: string, off: nat, fields: seq<Field>, texts: seq<string>, i: nat, first: bool,
                                 key: string, p: nat)
    requires Orderly(fields, texts) && i <= |fields| && GoodName(key)
    requires Laid(doc, off, fields, texts, i, first)
    requires forall j | i <= j < |fields| && Written(fields[j], texts[j]) :: fields[j].name != key
    requires off <= p + |key|
    ensures !KeyAt(doc, key, p)
    decreases |fields| - i
  {
    if i == |fields| {
      assert forall c | off <= c < |doc| :: doc[c] == TAIL[c - off];
    } else if !Written(fields[i], texts[i]) {
      NoKey(doc, off, fields, texts, i + 1, first, key, p);
    } else {
      var f, text := fields[i], texts[i];
      var end := LineEnd(off, first, f, text);
      if p + |key| >= end {
        NoKey(doc, end, fields, texts, i + 1, false, key, p);
      } else if KeyAt(doc, key, p) {
        LineKeys(doc, off, first, f, text, key, p);
      }
    }
  }

  // Position n0 is the only one from off on where the search stops, and the value is text.
  ghost predicate OnlyKey(doc: string, off: nat, key: string, n0: nat, text: string) {
    && off + 2 < n0 <= |doc| && doc[n0 - 2] == '\n'
    && KeyAt(doc, key, n0) && Extract(doc, ValueAt(doc, key, n0)) == Found(text)
    && forall p: nat | off <= p + |key| && KeyAt(doc, key, p) :: p == n0
  }

  lemma KeyHere(doc: string, off: nat, fields: seq<Field>, texts: seq<string>, k: nat, first: bool)
    requires Orderly(fields, texts) && k < |fields| && Written(fields[k], texts[k])
    requires Laid(doc, off, fields, texts, k, first)
    ensures OnlyKey(doc, off, fields[k].name, NameStart(off, first), texts[k])
  {
    var f, text := fields[k], texts[k];
    var end := LineEnd(off, first, f, text);
    LineNamed(doc, off, first, f, text);
    LineValue(doc, off, first, f, text);
    forall p: nat | off <= p + |f.name| && KeyAt(doc, f.name, p) ensures p == NameStart(off, first) {
      if p + |f.name| < end {
        LineKeys(doc, off, first, f, text, f.name, p);
      } else {
        NoKey(doc, end, fields, texts, k + 1, false, f.name, p);
      }
    }
  }

  lemma KeyElsewhere(doc: string, off: nat, first: bool, f: Field, text: string, key: string, n0: nat, found: string)
    requires LineAt(doc, off, first, f, text) && Follows(doc, LineEnd(off, first, f, text))
    requires GoodName(f.name) && GoodName(key) && Plain(text) && key != f.name
    requires OnlyKey(doc, LineEnd(off, first, f, text), key, n0, found)
    ensures OnlyKey(doc, off, key, n0, found)
  {
    forall p: nat | off <= p + |key| && KeyAt(doc, key, p) ensures p == n0 {
      if p + |key| < LineEnd(off, first, f, text) {
        LineKeys(doc, off, first, f, text, key, p);
      }
    }
  }

  // Exactly one place carries the name of a member, and its value is the member's text.
  lemma {:induction false} OneKey(doc: string, off: nat, fields: seq<Field>, texts: seq<string>, i: nat, first: bool,
                                  k: nat) returns (n0: nat)
    requires Orderly(fields, texts) && i <= k < |fields| && Written(fields[k], texts[k])
    requires Laid(doc, off, fields, texts, i, first)
    ensures OnlyKey(doc, off, fields[k].name, n0, texts[k])
    decreases |fields| - i
  {
    if i == k {
      KeyHere(doc, off, fields, texts, k, first);
      n0 := NameStart(off, first);
    } else if !Written(fields[i], texts[i]) {
      n0 := OneKey(doc, off, fields, texts, i + 1, first, k);
    } else {
      var f, text := fields[i], texts[i];
      n0 := OneKey(doc, LineEnd(off, first, f, text), fields, texts, i + 1, false, k);
      KeyElsewhere(doc, off, first, f, text, fields[k].name, n0, texts[k]);
    }
  }

  // ---------- The round trip ----------

  lemma LookupSaved(fields: seq<Field>, texts: seq<string>, k: nat)
    requires Orderly(fields, texts) && k < |fields|
    ensures Lookup("{" + Body(fields, texts, 0, true) + TAIL, fields[k].name)
            == if texts[k] != fields[k].deflt then Found(texts[k]) else Missing
  {
    var doc := "{" + Body(fields, texts, 0, true) + TAIL;
    var key := fields[k].name;
    assert doc[1..] == Body(fields, texts, 0, true) + TAIL;
    BodyLaid(doc, 1, fields, texts, 0, true);
    if Written(fields[k], texts[k]) {
      var n0 := OneKey(doc, 1, fields, texts, 0, true, k);
      SearchOnly(doc, key, n0, texts[k]);
    } else {
      forall p | p > 0 ensures !KeyAt(doc, key, p) {
        NoKey(doc, 1, fields, texts, 0, true, key, p);
      }
      ScanNone(doc, key, 0, NULL);
    }
  }

  lemma SearchOnly(doc: string, key: string, n0: nat, text: string)
    requires GoodName(key) && OnlyKey(doc, 1, key, n0, text)
    ensures Lookup(doc, key) == Found(text)
  {
    forall p | p > 0 && KeyAt(doc, key, p) ensures p == n0 {
      var q: nat := p;
      assert KeyAt(doc, key, q);
    }
    LineBreakSeparates(doc, key, n0);
    ScanOne(doc, key, 0, NULL, n0);
  }

  lemma LineBreakSeparates(doc: string, key: string, n0: nat)
    requires GoodName(key) && 1 < n0 <= |doc| && !GoodChar(doc[n0 - 2])
    ensures Separate(doc, key, n0)
  {
    forall q: int | Occurs(doc, key, q) ensures GoodChar(doc[q + |key| - 1]) {
      NameChars(doc, key, q);
    }
  }

  // Reading a saved file restores every field, whatever it held before.
  lemma RoundTrip(fields: seq<Field>, values: seq<Value>, k: nat, before: Value)
    requires AllFit(fields, values) && GoodTable(fields) && k < |fields|
    ensures Restored(fields[k], Document(fields, values), before) == values[k]
  {
    var texts := Texts(fields, values);
    forall i | 0 <= i < |fields| ensures Printable(fields[i].kind, texts[i]) {
      ShownShape(fields[i].kind, values[i]);
    }
    LookupSaved(fields, texts, k);
    SetShown(fields[k], values[k], Lookup(Document(fields, values), fields[k].name), before);
  }

  lemma BodySplit(fields: seq<Field>, texts: seq<string>, i: nat, first: bool, file: string)
    requires |fields| == |texts| && i < |fields| && Written(fields[i], texts[i])
    ensures var line := Clip(Line(first, fields[i], texts[i]), WRITE_SIZE - 1);
            file + Body(fields, texts, i, first) == file + line + Body(fields, texts, i + 1, false)
  {
  }

  // The configuration in memory and the file.
  class Store {
    const fields: seq<Field>
    var values: seq<Value>
    var file: string

    constructor (fields: seq<Field>, values: seq<Value>)
      requires |fields| == |values|
      ensures this.fields == fields && this.values == values
    {
      this.fields := fields;
      this.values := values;
      file := "";
    }

    // config_save
    method Save()
      requires Sized(fields, values)
      modifies this`file
      ensures file == Document(fields, values)
    {
      ghost var texts := Texts(fields, values);
      var first := true;
      file := "{";
      for i := 0 to |fields|
        invariant file + Body(fields, texts, i, first) == "{" + Body(fields, texts, 0, true)
      {
        var val := Show(fields[i].kind, values[i]);
        if val != fields[i].deflt {
          BodySplit(fields, texts, i, first, file);
          file := file + Clip(Line(first, fields[i], val), WRITE_SIZE - 1);
          first := false;
        }
      }
      assert file + "" == file;
      file := file + TAIL;
    }

    // The loop of config_read.
    method Read()
      requires |values| == |fields|
      modifies this`values
      ensures |values| == |fields|
      ensures forall k | 0 <= k < |fields| :: values[k] == Restored(fields[k], file, old(values[k]))
    {
      for i := 0 to |fields|
        invariant |values| == |fields|
        invariant forall k | 0 <= k < i :: values[k] == Restored(fields[k], file, old(values[k]))
        invariant forall k | i <= k < |fields| :: values[k] == old(values[k])
      {
        var found := JsonGet(file, fields[i].name);
        values := values[i := Set(fields[i], found, values[i])];
      }
    }
  }

  // ---------- The modem's table ----------

  const NPR: seq<Field> := [
    Field("wifi_id", Text32, ""),
    Field("wifi_passphrase", Text32, ""),
    Field("client_int_size", Uint32, "0"),
    Field("is_master", Flag, "false"),
    Field("callsign", Text13, "N0CALL-1       "),
    Field("telnet_last_active", Flag, "true"),
    Field("modulation", Uint8, "24"),
    Field("frequency", Decimal, "437.000"),
    Field("radio_network_id", Uint8, "0"),
    Field("client_static_ip", Flag, "false"),
    Field("client_req_size", Uint32, "1"),
    Field("dhcp_active", Flag, "true"),
    Field("master_fdd", Flag, "false"),
    Field("modem_ip", Address, "192.168.0.253"),
    Field("netmask", Address, "255.255.255.0"),
    Field("ip_size", Uint32, "32"),
    Field("dns_active", Flag, "true"),
    Field("dns_value", Address, "9.9.9.9"),
    Field("def_route_active", Flag, "true"),
    Field("default_route", Address, "192.168.0.1"),
    Field("ip_start", Address, "192.168.0.65"),
    Field("telnet_routed", Flag, "true"),
    Field("mac_ls_bytes", Uint16, "0"),
    Field("radio_on_at_start", Flag, "false"),
    Field("rf_power", Uint8, "127"),
    Field("shift", Decimal, "0.000"),
    Field("master_down_ip", Address, "192.168.0.252"),
    Field("try_restart", Flag, "false")
  ]

  // Finds the row of a name in the table from its length and one character.
  function Row(s: string): nat {
    if |s| == 5 then 25
    else if |s| == 7 then if s[2] == 'f' then 0 else if s[2] == 't' then 14 else 15
    else if |s| == 8 then if s[0] == 'c' then 4 else if s[0] == 'm' then 13 else if s[0] == 'i' then 20 else 24
    else if |s| == 9 then if s[0] == 'i' then 3 else if s[0] == 'f' then 7 else 17
    else if |s| == 10 then if s[1] == 'o' then 6 else if s[1] == 'a' then 12 else 16
    else if |s| == 11 then if s[0] == 'd' then 11 else 27
    else if |s| == 12 then 22
    else if |s| == 13 then if s[0] == 'd' then 19 else 21
    else if |s| == 14 then 26
    else if |s| == 15 then if s[7] == 's' then 1 else if s[7] == 'i' then 2 else 10
    else if |s| == 16 then if s[0] == 'r' then 8 else if s[0] == 'c' then 9 else 18
    else if |s| == 17 then 23
    else 5
  }

  lemma NprRow(i: nat)
    requires i < |NPR|
    ensures Row(NPR[i].name) == i
  {
  }

  lemma FirstNames(i: nat)
    requires i < 7
    ensures GoodName(NPR[i].name)
  {
  }

  lemma SecondNames(i: nat)
    requires 7 <= i < 14
    ensures GoodName(NPR[i].name)
  {
  }

  lemma ThirdNames(i: nat)
    requires 14 <= i < 21
    ensures GoodName(NPR[i].name)
  {
  }

  lemma FourthNames(i: nat)
    requires 21 <= i < 28
    ensures GoodName(NPR[i].name)
  {
  }

  lemma NprTable()
    ensures GoodTable(NPR)
  {
    forall i | 0 <= i < |NPR| ensures GoodName(NPR[i].name) {
      if i < 7 { FirstNames(i); } else if i < 14 { SecondNames(i); }
      else if i < 21 { ThirdNames(i); } else { FourthNames(i); }
    }
    forall i, j | 0 <= i < j < |NPR| ensures NPR[i].name != NPR[j].name {
      NprRow(i);
      NprRow(j);
    }
  }

  // The modem's configuration survives a save and a restart, field by field.
  lemma NprRoundTrip(values: seq<Value>, k: nat, before: Value)
    requires AllFit(NPR, values) && k < |NPR|
    ensures Restored(NPR[k], Document(NPR, values), before) == values[k]
  {
    NprTable();
    RoundTrip(NPR, values, k, before);
  }
}
