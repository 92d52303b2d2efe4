// Numbers and addresses as text: printf's %d, atoi, and sscanf's %i.%i.%i.%i
// (pi-pico/jsonconf.cpp:175, 181, 185, 190, 261-271, 294-298).
module Numerals {
  import opened Bytes

  const WORD: nat := 0x1_0000_0000

  // ---------- Numbers as text ----------

  function Digit(d: nat): char
    requires d < 10
  {
    '0' + d as char
  }

  // "%d" of a natural number.
  function Print(n: nat): (s: string)
    ensures |s| > 0 && forall i | 0 <= i < |s| :: '0' <= s[i] <= '9'
    ensures n > 0 ==> s[0] != '0'
  {
    if n < 10 then [Digit(n)] else Print(n / 10) + [Digit(n % 10)]
  }

  lemma {:induction false} PrintLength(n: nat, digits: nat)
    requires digits > 0 && n < TenTo(digits)
    ensures |Print(n)| <= digits
  {
    if n >= 10 {
      PrintLength(n / 10, digits - 1);
    }
  }

  function TenTo(k: nat): nat {
    if k == 0 then 1 else 10 * TenTo(k - 1)
  }

  // The value of a digit in any base up to 16, 99 for other characters.
  function DigitValue(c: char): nat {
    if '0' <= c <= '9' then (c - '0') as nat
    else if 'a' <= c <= 'f' then 10 + (c - 'a') as nat
    else if 'A' <= c <= 'F' then 10 + (c - 'A') as nat
    else 99
  }

  // Digits of a base, as far as they go: the number and the text behind it.
  function ReadDigits(s: string, base: nat, acc: nat): (nat, string) {
    if s == "" || DigitValue(s[0]) >= base then (acc, s)
    else ReadDigits(s[1..], base, acc * base + DigitValue(s[0]))
  }

  lemma {:induction false} ReadPrinted(n: nat, rest: string)
    ensures ReadDigits(Print(n) + rest, 10, 0) == ReadDigits(rest, 10, n)
  {
    var last := [Digit(n % 10)];
    assert (last + rest)[0] == Digit(n % 10) && (last + rest)[1..] == rest;
    assert DigitValue(Digit(n % 10)) == n % 10;
    if n >= 10 {
      assert Print(n) + rest == Print(n / 10) + (last + rest);
      ReadPrinted(n / 10, last + rest);
    }
  }

  function SkipBlank(s: string): string {
    if s != "" && (s[0] == ' ' || 9 <= s[0] as int <= 13) then SkipBlank(s[1..]) else s
  }

  // atoi
  function Atoi(s: string): int {
    var t := SkipBlank(s);
    if t != "" && t[0] == '-' then 0 - ReadDigits(t[1..], 10, 0).0 as int
    else if t != "" && t[0] == '+' then ReadDigits(t[1..], 10, 0).0
    else ReadDigits(t, 10, 0).0
  }

  // "%d" handed an unsigned word.
  function PrintSigned(w: nat): string
    requires w < WORD
  {
    if w < WORD / 2 then Print(w) else "-" + Print(WORD - w)
  }

  lemma AtoiPrinted(w: nat)
    requires w < WORD
    ensures Atoi(PrintSigned(w)) % WORD == w
    ensures w < WORD / 2 ==> Atoi(PrintSigned(w)) == w
  {
    var m := if w < WORD / 2 then w else WORD - w;
    ReadPrinted(m, "");
    assert Print(m) + "" == Print(m);
    assert ("-" + Print(m))[1..] == Print(m);
  }

  // ---------- Addresses ----------

  // "%i": blanks, a sign, then a base chosen by the prefix, at least one digit.
  datatype Scanned = Nothing | Number(value: int, rest: string)

  function ScanUnsigned(t: string): Scanned {
    if |t| > 1 && t[0] == '0' && t[1] in "xX" then
      if |t| > 2 && DigitValue(t[2]) < 16 then
        var (v, rest) := ReadDigits(t[2..], 16, 0);
        Number(v, rest)
      else Nothing
    else if t != "" && t[0] == '0' then
      var (v, rest) := ReadDigits(t, 8, 0);
      Number(v, rest)
    else if t != "" && DigitValue(t[0]) < 10 then
      var (v, rest) := ReadDigits(t, 10, 0);
      Number(v, rest)
    else Nothing
  }

  function ScanInteger(s: string): Scanned {
    var t := SkipBlank(s);
    if t != "" && t[0] == '-' then
      match ScanUnsigned(t[1..])
      case Nothing => Nothing
      case Number(v, rest) => Number(-v, rest)
    else if t != "" && t[0] == '+' then ScanUnsigned(t[1..])
    else ScanUnsigned(t)
  }

  // Octal behind a zero, hexadecimal behind 0x, decimal otherwise.
  lemma OctalScanned()
    ensures ScanInteger("010") == Number(8, "") && ScanInteger("08") == Number(0, "8")
  {
    hide SkipBlank;
    NoBlank("010");
    NoBlank("08");
    assert ReadDigits("", 8, 8) == (8, "") && ReadDigits("0", 8, 1) == (8, "") && ReadDigits("10", 8, 0) == (8, "");
    assert ReadDigits("8", 8, 0) == (0, "8");
  }

  lemma HexScanned()
    ensures ScanInteger("0x1F.") == Number(31, ".")
  {
    hide SkipBlank;
    NoBlank("0x1F.");
    assert ReadDigits(".", 16, 31) == (31, ".") && ReadDigits("F.", 16, 1) == (31, ".");
    assert ReadDigits("1F.", 16, 0) == (31, ".");
  }

  lemma DecimalScanned()
    ensures ScanInteger(" 10") == Number(10, "") && ScanInteger("-7") == Number(-7, "") && ScanInteger("x") == Nothing
  {
    hide SkipBlank;
    NoBlank("-7");
    NoBlank("x");
    OneBlank("10");
    assert " " + "10" == " 10";
    assert ReadDigits("", 10, 10) == (10, "") && ReadDigits("0", 10, 1) == (10, "") && ReadDigits("", 10, 7) == (7, "");
  }

  lemma NoBlank(s: string)
    requires s != "" && s[0] != ' ' && !(9 <= s[0] as int <= 13)
    ensures SkipBlank(s) == s
  {}

  lemma OneBlank(s: string)
    requires s != "" && s[0] != ' ' && !(9 <= s[0] as int <= 13)
    ensures SkipBlank(" " + s) == s
  {
    assert (" " + s)[1..] == s;
  }

  // The first `count` numbers separated by dots, or fewer where the text does not match.
  function ScanDotted(s: string, count: nat): seq<int>
    decreases count
  {
    if count == 0 then []
    else
      match ScanInteger(s)
      case Nothing => []
      case Number(v, rest) =>
        if rest != "" && rest[0] == '.' then [v] + ScanDotted(rest[1..], count - 1) else [v]
  }

  function Or(x: nat, y: nat): nat {
    if x == 0 then y
    else if y == 0 then x
    else 2 * Or(x / 2, y / 2) + (if x % 2 == 1 || y % 2 == 1 then 1 else 0)
  }

  lemma {:induction false} OrDisjoint(x: nat, y: nat, k: nat)
    requires x < Pow2(k)
    ensures Or(x, y * Pow2(k)) == x + y * Pow2(k)
  {
    if x > 0 && y > 0 {
      var half := y * Pow2(k - 1);
      assert y * Pow2(k) == 2 * half;
      OrDisjoint(x / 2, y, k - 1);
    }
  }

  // A left shift of a 32-bit word.
  function Shifted(v: int, unit: nat): nat {
    v % 0x1_0000_0000 * unit % 0x1_0000_0000
  }

  // Four scanned numbers packed into a word; nothing unless there are four.
  function Packed(p: seq<int>): nat
    requires |p| == 4
  {
    Or(Or(Or(Shifted(p[3], 1), Shifted(p[2], 0x100)), Shifted(p[1], 0x1_0000)), Shifted(p[0], 0x100_0000))
  }

  lemma ScanOctet(n: nat, rest: string)
    requires n < 256
    requires rest == "" || rest[0] == '.'
    ensures ScanInteger(Print(n) + rest) == Number(n, rest)
  {
    var t := Print(n) + rest;
    assert t[0] == Print(n)[0];
    assert SkipBlank(t) == t;
    if n == 0 {
      assert t[1..] == rest;
      assert |t| > 1 ==> t[1] == '.';
      assert ReadDigits(t, 8, 0) == ReadDigits(rest, 8, 0);
    } else {
      ReadPrinted(n, rest);
    }
  }

  lemma ScanNext(n: nat, rest: string, count: nat)
    requires n < 256
    ensures ScanDotted(Print(n) + ("." + rest), count + 1) == [n as int] + ScanDotted(rest, count)
  {
    ScanOctet(n, "." + rest);
    assert ("." + rest)[1..] == rest;
  }

  // A list of octets separated by dots.
  function Dotted(octets: seq<nat>): string
    requires |octets| > 0
  {
    if |octets| == 1 then Print(octets[0]) else Print(octets[0]) + ("." + Dotted(octets[1..]))
  }

  lemma {:induction false} ScanOctets(octets: seq<nat>)
    requires |octets| > 0 && forall i | 0 <= i < |octets| :: octets[i] < 256
    ensures ScanDotted(Dotted(octets), |octets|) == octets
  {
    hide ScanInteger, Print;
    if |octets| == 1 {
      ScanOctet(octets[0], "");
      assert Print(octets[0]) + "" == Print(octets[0]);
      assert ScanDotted("", 0) == [];
    } else {
      ScanOctets(octets[1..]);
      ScanNext(octets[0], Dotted(octets[1..]), |octets| - 1);
    }
  }

  lemma {:induction false} DottedLength(octets: seq<nat>)
    requires |octets| > 0 && forall i | 0 <= i < |octets| :: octets[i] < 256
    ensures |Dotted(octets)| < 4 * |octets|
    ensures forall i | 0 <= i < |Dotted(octets)| :: Dotted(octets)[i] in "0123456789."
  {
    assert TenTo(3) == 10 * TenTo(2) && TenTo(2) == 10 * TenTo(1) && TenTo(1) == 10;
    PrintLength(octets[0], 3);
    if |octets| > 1 {
      DottedLength(octets[1..]);
    }
  }

  lemma Powers()
    ensures Pow2(8) == 0x100 && Pow2(16) == 0x1_0000 && Pow2(24) == 0x100_0000
  {
    assert Pow2(4) == 16;
    assert Pow2(8) == 16 * Pow2(4);
    assert Pow2(12) == 16 * Pow2(8);
    assert Pow2(16) == 16 * Pow2(12);
    assert Pow2(20) == 16 * Pow2(16);
    assert Pow2(24) == 16 * Pow2(20);
  }

  lemma OrShifted(x: nat, y: nat, k: nat, unit: nat)
    requires unit == Pow2(k) && x < unit
    ensures Or(x, y * unit) == x + y * unit
  {
    OrDisjoint(x, y, k);
  }

  lemma ShiftedOctet(v: nat, unit: nat)
    requires v < 256 && unit <= 0x100_0000
    ensures Shifted(v, unit) == v * unit
  {
    assert v % 0x1_0000_0000 == v;
    assert 0 <= v * unit <= 255 * unit;
  }

  lemma PackOctets(a: nat, b: nat, c: nat, d: nat)
    requires a < 256 && b < 256 && c < 256 && d < 256
    ensures Packed([a, b, c, d]) == a * 0x100_0000 + b * 0x1_0000 + c * 0x100 + d
  {
    Powers();
    OrShifted(d, c, 8, 0x100);
    var low := d + c * 0x100;
    OrShifted(low, b, 16, 0x1_0000);
    var most := low + b * 0x1_0000;
    OrShifted(most, a, 24, 0x100_0000);
    ShiftedOctet(d, 1);
    ShiftedOctet(c, 0x100);
    ShiftedOctet(b, 0x1_0000);
    ShiftedOctet(a, 0x100_0000);
  }

  // sscanf reads a printed address back.
  lemma AddressRoundTrip(w: nat)
    requires w < WORD
    ensures var p := ScanDotted(Dotted(BigEndian(w)), 4); |p| == 4 && Packed(p) == w
  {
    var o := BigEndian(w);
    BigEndianRoundTrip(w, o);
    ScanOctets(o);
    PackOctets(o[0], o[1], o[2], o[3]);
    assert o == [o[0], o[1], o[2], o[3]];
  }
}
