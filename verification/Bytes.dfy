// Bytes, exclusive-or sums and the power-of-two rings shared by the radio modules.
module Bytes {

  // An unsigned char of the firmware.
  type byte = x: int | 0 <= x < 256

  // ----- exclusive or, bit by bit -----

  function XorNat(a: nat, b: nat): nat
    decreases a + b
  {
    if a + b == 0 then 0 else (a + b) % 2 + 2 * XorNat(a / 2, b / 2)
  }

  function Pow2(k: nat): nat {
    if k == 0 then 1 else 2 * Pow2(k - 1)
  }

  lemma {:induction false} XorNatBound(a: nat, b: nat, k: nat)
    requires a < Pow2(k) && b < Pow2(k)
    ensures XorNat(a, b) < Pow2(k)
  {
    if k > 0 {
      XorNatBound(a / 2, b / 2, k - 1);
    }
  }

  lemma {:induction false} XorNatUnit(a: nat)
    ensures XorNat(a, 0) == a
    ensures XorNat(a, a) == 0
  {
    if a > 0 {
      XorNatUnit(a / 2);
    }
  }

  lemma {:induction false} XorNatComm(a: nat, b: nat)
    ensures XorNat(a, b) == XorNat(b, a)
    decreases a + b
  {
    if a + b > 0 {
      XorNatComm(a / 2, b / 2);
    }
  }

  lemma {:induction false} XorNatAssoc(a: nat, b: nat, c: nat)
    ensures XorNat(XorNat(a, b), c) == XorNat(a, XorNat(b, c))
    decreases a + b + c
  {
    if a + b + c > 0 {
      XorNatAssoc(a / 2, b / 2, c / 2);
      XorNatAssocHalves(a, b, c);
      SameHalves(XorNat(XorNat(a, b), c), XorNat(a, XorNat(b, c)));
    }
  }

  lemma XorNatAssocHalves(a: nat, b: nat, c: nat)
    ensures XorNat(XorNat(a, b), c) / 2 == XorNat(XorNat(a / 2, b / 2), c / 2)
    ensures XorNat(a, XorNat(b, c)) / 2 == XorNat(a / 2, XorNat(b / 2, c / 2))
    ensures XorNat(XorNat(a, b), c) % 2 == XorNat(a, XorNat(b, c)) % 2
  {
    var x, y := XorNat(a, b), XorNat(b, c);
    XorNatHalf(a, b);
    XorNatHalf(b, c);
    XorNatHalf(x, c);
    XorNatHalf(a, y);
    ParityAssoc(a, b, c, x, y);
  }

  lemma ParityAssoc(a: nat, b: nat, c: nat, x: nat, y: nat)
    requires x % 2 == (a + b) % 2 && y % 2 == (b + c) % 2
    ensures (x + c) % 2 == (a + y) % 2
  {}

  lemma SameHalves(l: nat, r: nat)
    requires l / 2 == r / 2 && l % 2 == r % 2
    ensures l == r
  {}

  lemma XorNatHalf(a: nat, b: nat)
    ensures XorNat(a, b) / 2 == XorNat(a / 2, b / 2)
    ensures XorNat(a, b) % 2 == (a + b) % 2
  {}

  function Xor(a: byte, b: byte): byte {
    XorByteBound(a, b);
    XorNat(a, b)
  }

  lemma SmallXors()
    ensures Xor(1, 2) == 3 && Xor(3, 4) == 7 && Xor(6, 3) == 5
  {
    assert XorNat(0, 0) == 0 && XorNat(0, 1) == 1;
    assert XorNat(1, 2) == 3 && XorNat(1, 0) == 1 && XorNat(1, 1) == 0;
    assert XorNat(3, 1) == 2 && XorNat(1, 2) == 3;
    assert XorNat(3, 4) == 1 + 2 * XorNat(1, 2);
    assert XorNat(6, 3) == 1 + 2 * XorNat(3, 1);
  }

  lemma XorByteBound(a: byte, b: byte)
    ensures XorNat(a, b) < 256
  {
    assert Pow2(8) == 256;
    XorNatBound(a, b, 8);
  }

  lemma XorLaws(a: byte, b: byte, c: byte)
    ensures Xor(a, b) == Xor(b, a)
    ensures Xor(a, 0) == Xor(0, a) == a
    ensures Xor(a, a) == 0
    ensures Xor(Xor(a, b), c) == Xor(a, Xor(b, c))
  {
    XorNatComm(a, b);
    XorNatComm(a, 0);
    XorNatUnit(a);
    XorNatAssoc(a, b, c);
  }

  // Two bytes are equal exactly when their XOR is zero.
  lemma XorZero(a: byte, b: byte)
    ensures Xor(a, b) == 0 <==> a == b
  {
    XorLaws(a, b, b);
    XorLaws(b, b, b);
  }

  // XOR of the first n bytes: the running sum that the firmware calls a CRC.
  function XorSum(s: seq<byte>, n: nat): byte
    requires n <= |s|
  {
    if n == 0 then 0 else Xor(XorSum(s, n - 1), s[n - 1])
  }

  function XorAll(s: seq<byte>): byte {
    XorSum(s, |s|)
  }

  lemma {:induction false} XorSumPrefix(s: seq<byte>, t: seq<byte>, n: nat)
    requires n <= |s| && n <= |t| && s[..n] == t[..n]
    ensures XorSum(s, n) == XorSum(t, n)
  {
    if n > 0 {
      assert s[..n - 1] == s[..n][..n - 1] && t[..n - 1] == t[..n][..n - 1];
      assert s[n - 1] == s[..n][n - 1] && t[n - 1] == t[..n][n - 1];
      XorSumPrefix(s, t, n - 1);
    }
  }

  // Changing one byte changes the sum by the XOR of the old and the new byte.
  lemma {:induction false} XorSumUpdate(s: seq<byte>, n: nat, k: nat, v: byte)
    requires k < n <= |s|
    ensures XorSum(s[k := v], n) == Xor(XorSum(s, n), Xor(s[k], v))
  {
    var x := XorSum(s, n - 1);
    if k == n - 1 {
      XorSumPrefix(s, s[k := v], n - 1);
      XorLaws(Xor(x, s[k]), s[k], v);
      XorLaws(x, s[k], s[k]);
      XorLaws(s[k], v, v);
    } else {
      XorSumUpdate(s, n - 1, k, v);
      XorLaws(x, Xor(s[k], v), s[n - 1]);
      XorLaws(x, s[n - 1], Xor(s[k], v));
      XorLaws(s[n - 1], Xor(s[k], v), 0);
    }
  }

  // The receive FIFO has 0x2000 cells (source/global_variables.h:78-79).
  const RX_RING: nat := 0x2000

  // The n bytes a reader sees at position p of a ring.
  function Window(ring: seq<byte>, p: nat, n: nat): (w: seq<byte>)
    requires |ring| == RX_RING
    ensures |w| == n
  {
    seq(n, i requires 0 <= i < n => ring[(p + i) % RX_RING])
  }

  lemma WindowSlice(ring: seq<byte>, p: nat, n: nat, a: nat, m: nat)
    requires |ring| == RX_RING && a + m <= n
    ensures Window(ring, p, n)[a..a + m] == Window(ring, p + a, m)
  {
    var whole, part := Window(ring, p, n)[a..a + m], Window(ring, p + a, m);
    forall i | 0 <= i < m
      ensures whole[i] == part[i]
    {
      assert p + (a + i) == (p + a) + i;
    }
  }

  lemma WindowConcat(ring: seq<byte>, p: nat, n: nat, m: nat)
    requires |ring| == RX_RING
    ensures Window(ring, p, n + m) == Window(ring, p, n) + Window(ring, p + n, m)
  {
    var whole, parts := Window(ring, p, n + m), Window(ring, p, n) + Window(ring, p + n, m);
    forall i | n <= i < n + m
      ensures whole[i] == parts[i]
    {
      assert p + i == (p + n) + (i - n);
    }
  }

  lemma MulSign(size: nat, q: int)
    requires size > 0
    ensures q <= 0 ==> size * q <= 0
    ensures q >= 1 ==> size * q >= size
  {}

  // A pointer of a ring addresses distinct cells until it has gone all the way round.
  lemma DistinctCells(size: nat, a: nat, b: nat)
    requires a < b < a + size
    ensures a % size != b % size
  {
    var q := b / size - a / size;
    MulSign(size, q);
    assert b - a == size * q + (b % size - a % size);
  }

  // Writing cell p leaves untouched every window that does not reach p modulo the ring.
  lemma WindowFrame(ring: seq<byte>, p: nat, n: nat, w: nat, v: byte)
    requires |ring| == RX_RING && p + n <= w < p + RX_RING
    ensures Window(ring[w % RX_RING := v], p, n) == Window(ring, p, n)
  {
    forall i | 0 <= i < n
      ensures Window(ring[w % RX_RING := v], p, n)[i] == Window(ring, p, n)[i]
    {
      DistinctCells(RX_RING, p + i, w);
    }
  }

  lemma WindowAppend(ring: seq<byte>, p: nat, n: nat, v: byte)
    requires |ring| == RX_RING && n < RX_RING
    ensures Window(ring[(p + n) % RX_RING := v], p, n + 1) == Window(ring, p, n) + [v]
  {
    WindowFrame(ring, p, n, p + n, v);
    WindowConcat(ring[(p + n) % RX_RING := v], p, n, 1);
  }

  // ----- sequences of bytes one after the other -----

  function Flat(es: seq<seq<byte>>): seq<byte> {
    if es == [] then [] else es[0] + Flat(es[1..])
  }

  lemma {:induction false} FlatAppend(es: seq<seq<byte>>, fs: seq<seq<byte>>)
    ensures Flat(es + fs) == Flat(es) + Flat(fs)
  {
    if es == [] {
      assert es + fs == fs;
    } else {
      assert (es + fs)[1..] == es[1..] + fs;
      FlatAppend(es[1..], fs);
      assert es[0] + (Flat(es[1..]) + Flat(fs)) == (es[0] + Flat(es[1..])) + Flat(fs);
    }
  }

  lemma FlatOne(e: seq<byte>)
    ensures Flat([e]) == e
  {
    assert Flat([e]) == e + Flat([]);
  }

  // ----- the four octets of a 32-bit word, the highest first (source/Eth_IPv4.cpp:28-39) -----

  function BigEndian(w: nat): (b: seq<byte>)
    ensures |b| == 4
  {
    [(w / 0x100_0000) % 256, (w / 0x1_0000) % 256, (w / 0x100) % 256, w % 256]
  }

  function Number(b: seq<byte>): nat
    requires |b| == 4
  {
    0x100_0000 * b[0] as nat + 0x1_0000 * b[1] as nat + 0x100 * b[2] as nat + b[3] as nat
  }

  lemma AddressOnAir()
    ensures BigEndian(0xC0A8_0001) == [192, 168, 0, 1]
  {
    BytesOf(192, 168, 0, 1);
  }

  lemma BigEndianRoundTrip(w: nat, b: seq<byte>)
    ensures w < 0x1_0000_0000 ==> Number(BigEndian(w)) == w
    ensures |b| == 4 ==> Number(b) < 0x1_0000_0000 && BigEndian(Number(b)) == b
  {
    if |b| == 4 {
      BytesOf(b[0], b[1], b[2], b[3]);
    }
    if w < 0x1_0000_0000 {
      NumberOf(w);
    }
  }

  lemma NumberOf(w: nat)
    requires w < 0x1_0000_0000
    ensures w == 0x100_0000 * (w / 0x100_0000) + 0x1_0000 * (w / 0x1_0000 % 256) + 0x100 * (w / 0x100 % 256)
                  + w % 256
    ensures w / 0x100_0000 < 256
  {
    var x := w / 0x100;
    var y := x / 0x100;
    assert w / 0x1_0000 == y && w / 0x100_0000 == y / 0x100;
  }

  lemma BytesOf(a: byte, b: byte, c: byte, d: byte)
    ensures var x := 0x100_0000 * a as nat + 0x1_0000 * b as nat + 0x100 * c as nat + d as nat;
            x / 0x100_0000 == a && x / 0x1_0000 % 256 == b && x / 0x100 % 256 == c && x % 256 == d
  {
    var x := 0x100_0000 * a as nat + 0x1_0000 * b as nat + 0x100 * c as nat + d as nat;
    assert x / 0x100 == 0x1_0000 * a as nat + 0x100 * b as nat + c as nat;
    assert x / 0x1_0000 == 0x100 * a as nat + b as nat;
  }

  // ----- parity bit of the address and TDMA bytes (source/TDMA.cpp:39-56) -----

  function BitSum(x: nat): nat {
    if x == 0 then 0 else x % 2 + BitSum(x / 2)
  }

  function ParityBitElab(x: byte): byte {
    if BitSum(x) % 2 == 1 then 128 else 0
  }

  function ParityBitCheck(x: byte): bool {
    BitSum(x) % 2 == 0
  }

  // A seven-bit value with its parity bit added passes the check and keeps its value.
  lemma ParityRoundTrip(x: byte)
    requires x < 128
    ensures x + ParityBitElab(x) < 256
    ensures ParityBitCheck(x + ParityBitElab(x))
    ensures (x + ParityBitElab(x)) % 128 == x
  {
    TopBit(x);
    WithTopBit(x);
    if BitSum(x) % 2 == 1 {
      assert ParityBitElab(x) == 128;
    }
  }

  lemma WithTopBit(x: byte)
    requires x < 128
    ensures (x + 128) % 128 == x % 128 == x
  {}

  lemma TopBit(x: byte)
    requires x < 128
    ensures BitSum(x + 128) == BitSum(x) + 1
  {
    Pow2Seven();
    BitSumTop(x, 7, 128);
  }

  lemma Pow2Seven()
    ensures Pow2(7) == 128
  {}

  lemma {:induction false} BitSumTop(x: nat, k: nat, top: nat)
    requires x < top == Pow2(k)
    ensures BitSum(x + top) == BitSum(x) + 1
  {
    if k == 0 {
      assert BitSum(1) == 1 + BitSum(0);
    } else {
      var half := Pow2(k - 1);
      HalveSum(x, half);
      BitSumTop(x / 2, k - 1, half);
    }
  }

  lemma HalveSum(x: nat, half: nat)
    ensures (x + 2 * half) / 2 == x / 2 + half && (x + 2 * half) % 2 == x % 2
  {}
}
