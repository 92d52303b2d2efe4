// Forward error correction of the radio frames: three data blocks and one parity block,
// each closed by an XOR byte (source/L1L2_radio.cpp:258-394).
module Fec {
  import opened Bytes

  // ----- sizes -----

  // Bytes of payload in one block: size/3, rounded up.
  function BlockSize(size: nat): nat {
    size / 3 + (if size % 3 > 0 then 1 else 0)
  }

  function SizeWithFec(sizeWithoutFec: nat): nat {
    4 * BlockSize(sizeWithoutFec) + 4
  }

  // The decoder's view of the same arithmetic: dividing the encoded size by four
  // gives the block length back, and the payload comes back rounded up by at most two.
  lemma SizeRoundTrip(n: nat)
    ensures SizeWithFec(n) / 4 - 1 == BlockSize(n)
    ensures n <= 3 * BlockSize(n) <= n + 2
    ensures 3 * BlockSize(n) == n <==> n % 3 == 0
  {}

  // 66..255 payload bytes are what the length byte can announce: 255 is 3 blocks of 85,
  // whose encoding with the TDMA byte is the 345-byte limit of the radio chip.
  lemma LengthByteFits(n: nat)
    ensures n <= 255 <==> SizeWithFec(n) + 1 <= 345
    ensures n <= 255 <==> SizeWithFec(n) + 1 - 90 <= 255
    ensures 66 <= n <= 255 ==> 0 <= SizeWithFec(n) + 1 - 90 < 256
  {}

  // ----- the code words -----

  function Parity(x: seq<byte>, y: seq<byte>, z: seq<byte>): (p: seq<byte>)
    requires |x| == |y| == |z|
    ensures |p| == |x|
  {
    seq(|x|, i requires 0 <= i < |x| => Xor(Xor(x[i], y[i]), z[i]))
  }

  function Sealed(x: seq<byte>): seq<byte> {
    x + [XorAll(x)]
  }

  // k * p for the block numbers that occur.
  function Times(k: nat, p: nat): nat
    requires k <= 4
  {
    if k == 0 then 0 else if k == 1 then p else if k == 2 then 2 * p else if k == 3 then 3 * p else 4 * p
  }

  function Part(d: seq<byte>, k: nat): (p: seq<byte>)
    requires k < 3 && |d| % 3 == 0
    ensures |p| == |d| / 3
  {
    d[Times(k, |d| / 3)..Times(k + 1, |d| / 3)]
  }

  // The four data fields of a message whose length is a multiple of three.
  function Field(d: seq<byte>, k: nat): (f: seq<byte>)
    requires k < 4 && |d| % 3 == 0
    ensures |f| == |d| / 3
  {
    if k < 3 then Part(d, k) else Parity(Part(d, 0), Part(d, 1), Part(d, 2))
  }

  function FourSealed(f0: seq<byte>, f1: seq<byte>, f2: seq<byte>, f3: seq<byte>): seq<byte> {
    Sealed(f0) + Sealed(f1) + Sealed(f2) + Sealed(f3)
  }

  function Encode(d: seq<byte>): (w: seq<byte>)
    requires |d| % 3 == 0
    ensures |w| == SizeWithFec(|d|)
  {
    FourSealed(Field(d, 0), Field(d, 1), Field(d, 2), Field(d, 3))
  }

  // The encoding of the first 3b bytes, as the encoding loop walks them.
  function EncodeFirst(data: seq<byte>, b: nat): seq<byte>
    requires 3 * b <= |data|
  {
    var f0, f1, f2 := data[..b], data[b..2 * b], data[2 * b..3 * b];
    FourSealed(f0, f1, f2, Parity(f0, f1, f2))
  }

  // The code words: the message in three blocks, their exclusive-or as a fourth, and behind each
  // block the exclusive-or of its bytes.
  lemma CodeWords(d: seq<byte>, k: nat, i: nat)
    requires |d| % 3 == 0 && k < 4 && i < |d| / 3
    ensures var b := |d| / 3;
            && |Encode(d)| == 4 * (b + 1)
            && (k == 0 ==> Encode(d)[i] == d[i])
            && (k == 1 ==> Encode(d)[b + 1 + i] == d[b + i])
            && (k == 2 ==> Encode(d)[2 * (b + 1) + i] == d[2 * b + i])
            && (k == 3 ==> Encode(d)[3 * (b + 1) + i] == Xor(Xor(d[i], d[b + i]), d[2 * b + i]))
  {
    hide XorAll, Xor;
    var b := |d| / 3;
    assert Part(d, 0)[i] == d[i] && Part(d, 1)[i] == d[b + i] && Part(d, 2)[i] == d[2 * b + i];
  }

  // Block k of a received window of 4p, 4p+1, 4p+2 or 4p+3 bytes.
  function Block(w: seq<byte>, k: nat): (b: seq<byte>)
    requires k < 4
    ensures |b| == |w| / 4
  {
    w[Times(k, |w| / 4)..Times(k + 1, |w| / 4)]
  }

  predicate Fails(w: seq<byte>, k: nat)
    requires k < 4
  {
    XorAll(Block(w, k)) != 0
  }

  function Count(b: bool): nat { if b then 1 else 0 }

  function Failures(w: seq<byte>): nat {
    Count(Fails(w, 0)) + Count(Fails(w, 1)) + Count(Fails(w, 2)) + Count(Fails(w, 3))
  }

  // The data bytes of one block: as received, or rebuilt from the three other blocks.
  function FieldOf(own: seq<byte>, x: seq<byte>, y: seq<byte>, z: seq<byte>): (d: seq<byte>)
    requires |own| == |x| == |y| == |z| >= 1
    ensures |d| == |own| - 1
  {
    var b := |own| - 1;
    if XorAll(own) == 0 then own[..b] else Parity(x[..b], y[..b], z[..b])
  }

  function Recovered(w: seq<byte>, k: nat): (d: seq<byte>)
    requires k < 3 && |w| >= 4
    ensures |d| == |w| / 4 - 1
  {
    if k == 0 then FieldOf(Block(w, 0), Block(w, 1), Block(w, 2), Block(w, 3))
    else if k == 1 then FieldOf(Block(w, 1), Block(w, 0), Block(w, 2), Block(w, 3))
    else FieldOf(Block(w, 2), Block(w, 0), Block(w, 1), Block(w, 3))
  }

  // The message read from four blocks of which at most one is corrupted.
  function Message(b0: seq<byte>, b1: seq<byte>, b2: seq<byte>, b3: seq<byte>): (d: seq<byte>)
    requires |b0| == |b1| == |b2| == |b3| >= 1
    ensures |d| == 3 * (|b0| - 1)
  {
    FieldOf(b0, b1, b2, b3) + FieldOf(b1, b0, b2, b3) + FieldOf(b2, b0, b1, b3)
  }

  // What the decoder hands back: nothing as soon as two blocks fail.
  function Decode(w: seq<byte>): (d: seq<byte>)
    requires |w| >= 4
    ensures d == [] || |d| == 3 * (|w| / 4 - 1)
  {
    if Failures(w) > 1 then [] else Message(Block(w, 0), Block(w, 1), Block(w, 2), Block(w, 3))
  }

  // ----- lemmas -----

  lemma SealedChecks(x: seq<byte>)
    ensures XorAll(Sealed(x)) == 0
  {
    XorSumPrefix(Sealed(x), x, |x|);
    XorLaws(XorAll(x), XorAll(x), 0);
  }

  lemma FourSealedBlocks(f0: seq<byte>, f1: seq<byte>, f2: seq<byte>, f3: seq<byte>)
    requires |f0| == |f1| == |f2| == |f3|
    ensures var w, p := FourSealed(f0, f1, f2, f3), |f0| + 1;
            && |w| == 4 * p && w[..p] == Sealed(f0) && w[p..2 * p] == Sealed(f1)
            && w[2 * p..3 * p] == Sealed(f2) && w[3 * p..4 * p] == Sealed(f3)
  {}

  lemma EncodeBlock(d: seq<byte>, k: nat)
    requires k < 4 && |d| % 3 == 0
    ensures Block(Encode(d), k) == Sealed(Field(d, k))
  {
    FourSealedBlocks(Field(d, 0), Field(d, 1), Field(d, 2), Field(d, 3));
    assert |Encode(d)| / 4 == |d| / 3 + 1;
  }

  lemma ThreeParts(x: seq<byte>, y: seq<byte>, z: seq<byte>, d: seq<byte>)
    requires |x| == |y| == |z| && |d| == 3 * |x|
    ensures x + y + z == d <==> x == Part(d, 0) && y == Part(d, 1) && z == Part(d, 2)
  {
    var b := |x|;
    if x + y + z == d {
      assert d[..b] == x && d[b..2 * b] == y && d[2 * b..] == z;
    }
    assert d == d[..b] + d[b..2 * b] + d[2 * b..];
  }

  // Any of three parity-linked bytes is the XOR of the parity byte and the two others.
  lemma ParitySolves(x: byte, y: byte, z: byte)
    ensures Xor(Xor(y, z), Xor(Xor(x, y), z)) == x
    ensures Xor(Xor(x, z), Xor(Xor(x, y), z)) == y
    ensures Xor(Xor(x, y), Xor(Xor(x, y), z)) == z
  {
    var p := Xor(Xor(x, y), z);
    XorLaws(x, y, z);
    assert p == Xor(x, Xor(y, z));
    Cancel(Xor(y, z), x);
    Cancel(Xor(x, y), z);
    XorLaws(Xor(x, y), z, 0);
    XorLaws(y, x, z);
    XorLaws(x, y, 0);
    XorLaws(y, Xor(x, z), 0);
    assert p == Xor(y, Xor(x, z));
    Cancel(Xor(x, z), y);
  }

  lemma Cancel(a: byte, b: byte)
    ensures Xor(a, Xor(b, a)) == b
    ensures Xor(a, Xor(a, b)) == b
  {
    XorLaws(b, a, 0);
    XorLaws(a, a, b);
    XorLaws(b, b, b);
  }

  lemma ParityRebuilds(x: seq<byte>, y: seq<byte>, z: seq<byte>)
    requires |x| == |y| == |z|
    ensures Parity(y, z, Parity(x, y, z)) == x
    ensures Parity(x, z, Parity(x, y, z)) == y
    ensures Parity(x, y, Parity(x, y, z)) == z
  {
    var p := Parity(x, y, z);
    forall i | 0 <= i < |x|
      ensures Parity(y, z, p)[i] == x[i] && Parity(x, z, p)[i] == y[i] && Parity(x, y, p)[i] == z[i]
    {
      ParitySolves(x[i], y[i], z[i]);
    }
  }

  // w is words except possibly inside block k.
  predicate SameBut(w: seq<byte>, words: seq<byte>, k: nat)
    requires |w| >= 4
  {
    |w| == |words| && forall j: nat {:trigger Block(w, j)} | j < 4 && j != k :: Block(w, j) == Block(words, j)
  }

  predicate DamagedIn(w: seq<byte>, d: seq<byte>, k: nat)
    requires k < 4 && |d| % 3 == 0
  {
    |w| == |Encode(d)| && SameBut(w, Encode(d), k)
  }

  // Intact, or damaged inside one block in a way that its check byte reveals.
  predicate Repairable(w: seq<byte>, words: seq<byte>, k: nat) {
    k < 4 && |w| >= 4 && SameBut(w, words, k) && (w == words || Fails(w, k))
  }

  lemma IntactBlock(w: seq<byte>, d: seq<byte>, k: nat, j: nat)
    requires k < 4 && j < 4 && j != k && |d| % 3 == 0 && DamagedIn(w, d, k)
    ensures !Fails(w, j) && Block(w, j)[..|d| / 3] == Field(d, j)
  {
    assert Block(w, j) == Block(Encode(d), j);
    EncodeBlock(d, j);
    SealedChecks(Field(d, j));
  }

  lemma RecoveredField(w: seq<byte>, d: seq<byte>, k: nat, j: nat)
    requires k < 4 && j < 3 && |d| % 3 == 0 && DamagedIn(w, d, k)
    ensures |w| / 4 - 1 == |d| / 3
    ensures j != k || Fails(w, k) ==> Recovered(w, j) == Field(d, j)
    ensures j == k && !Fails(w, k) ==> Recovered(w, j) == Block(w, k)[..|d| / 3]
  {
    if j != k {
      IntactBlock(w, d, k, j);
    } else if Fails(w, k) {
      forall i: nat | i < 4 && i != k
        ensures Block(w, i)[..|d| / 3] == Field(d, i)
      {
        IntactBlock(w, d, k, i);
      }
      ParityRebuilds(Part(d, 0), Part(d, 1), Part(d, 2));
    }
  }

  // Damage confined to one block: the message comes back whole exactly when the damage
  // changed the block's XOR, left the data bytes alone, or hit the parity block.
  lemma DecodeDamaged(w: seq<byte>, d: seq<byte>, k: nat)
    requires k < 4 && |d| % 3 == 0 && DamagedIn(w, d, k)
    ensures Failures(w) == Count(Fails(w, k)) && |Decode(w)| == |d|
    ensures Decode(w) == d <==> k == 3 || Fails(w, k) || Block(w, k)[..|d| / 3] == Field(d, k)
  {
    forall j: nat | j < 4 && j != k ensures !Fails(w, j) {
      IntactBlock(w, d, k, j);
    }
    RecoveredField(w, d, k, 0);
    RecoveredField(w, d, k, 1);
    RecoveredField(w, d, k, 2);
    ThreeParts(Recovered(w, 0), Recovered(w, 1), Recovered(w, 2), d);
  }

  // The smallest damage that goes unnoticed: a data byte and its check byte change alike.
  lemma SilentDamage()
    ensures var d, w := [0, 0, 0], [1, 1, 0, 0, 0, 0, 0, 0];
            DamagedIn(w, d, 0) && Failures(w) == 0 && Decode(w) != d
  {
    hide Encode, Decode, Failures, XorAll, XorSum, Parity;
    var d: seq<byte>, w: seq<byte> := [0, 0, 0], [1, 1, 0, 0, 0, 0, 0, 0];
    EncodeZeros();
    OnlyFirstDiffers(w, Encode(d));
    assert Block(w, 0) == [1, 1];
    SameTwice(Block(w, 0));
    DecodeDamaged(w, d, 0);
    assert Block(w, 0)[..1] == [1] && Field(d, 0) == [0];
  }

  lemma OnlyFirstDiffers(w: seq<byte>, words: seq<byte>)
    requires |w| == |words| == 8 && forall i | 2 <= i < 8 :: w[i] == words[i]
    ensures SameBut(w, words, 0)
  {
    forall j: nat | j < 4 && j != 0 ensures Block(w, j) == Block(words, j) {
      PairOf(w, j);
      PairOf(words, j);
    }
  }

  lemma PairOf(w: seq<byte>, j: nat)
    requires |w| == 8 && j < 4
    ensures Block(w, j) == [w[2 * j], w[2 * j + 1]]
  {
    assert j * 2 == 2 * j && (j + 1) * 2 == 2 * j + 2;
  }

  lemma SameTwice(b: seq<byte>)
    requires b == [1, 1]
    ensures XorAll(b) == 0
  {
    XorLaws(1, 1, 0);
    assert XorSum(b, 0) == 0;
    assert XorSum(b, 1) == Xor(0, 1);
    assert XorSum(b, 2) == Xor(XorSum(b, 1), 1);
  }

  // One short message and its code words.
  lemma EncodeOnAir()
    ensures Encode([1, 2, 4]) == [1, 1, 2, 2, 4, 4, 7, 7]
  {
    hide Xor;
    var d: seq<byte> := [1, 2, 4];
    SmallXors();
    assert Part(d, 0) == [1] && Part(d, 1) == [2] && Part(d, 2) == [4];
    assert Parity([1], [2], [4]) == [7];
    SealedOne(1);
    SealedOne(2);
    SealedOne(4);
    SealedOne(7);
  }

  lemma SealedOne(x: byte)
    ensures Sealed([x]) == [x, x]
  {
    hide Xor;
    XorLaws(x, 0, 0);
    assert XorSum([x], 1) == Xor(XorSum([x], 0), x);
  }

  lemma EncodeZeros()
    ensures Encode([0, 0, 0]) == [0, 0, 0, 0, 0, 0, 0, 0]
  {
    var d: seq<byte> := [0, 0, 0];
    XorLaws(0, 0, 0);
    assert Part(d, 0) == Part(d, 1) == Part(d, 2) == [0];
    assert Parity([0], [0], [0]) == [0];
    assert XorSum([0], 1) == Xor(XorSum([0], 0), 0) == 0;
    assert Sealed([0]) == [0, 0];
  }

  lemma RepairableDecodes(w: seq<byte>, d: seq<byte>, k: nat)
    requires |d| % 3 == 0 && Repairable(w, Encode(d), k)
    ensures Decode(w) == d
  {
    if w == Encode(d) {
      DecodeEncode(d);
    } else {
      DecodeDamaged(w, d, k);
    }
  }

  // Undamaged: the message comes back and no error is counted.
  lemma DecodeEncode(d: seq<byte>)
    requires |d| % 3 == 0
    ensures Decode(Encode(d)) == d && Failures(Encode(d)) == 0
  {
    var w := Encode(d);
    DecodeDamaged(w, d, 3);
    EncodeBlock(d, 3);
    SealedChecks(Field(d, 3));
  }

  function BlockOf(pos: nat, p: nat): (k: nat)
    requires pos < 4 * p
    ensures k < 4 && Times(k, p) <= pos < Times(k + 1, p)
  {
    if pos < p then 0 else if pos < 2 * p then 1 else if pos < 3 * p then 2 else 3
  }

  // Any change of exactly one byte of a frame is repaired.
  lemma SingleByteRepaired(d: seq<byte>, pos: nat, v: byte)
    requires |d| % 3 == 0 && pos < 4 * (|d| / 3 + 1)
    ensures |Encode(d)| == 4 * (|d| / 3 + 1)
    ensures Decode(Encode(d)[pos := v]) == d
    ensures Failures(Encode(d)[pos := v]) == if v == Encode(d)[pos] then 0 else 1
  {
    hide Encode, Decode, Failures, Field, XorAll;
    var good := Encode(d);
    if v == good[pos] {
      assert good[pos := v] == good;
      DecodeEncode(d);
      return;
    }
    var w := good[pos := v];
    var p := |good| / 4;
    assert |good| == 4 * p;
    var k := BlockOf(pos, p);
    forall j: nat | j < 4 && j != k
      ensures Block(w, j) == Block(good, j)
    {
      BlockOfUpdate(good, pos, v, j);
    }
    EncodeBlock(d, k);
    SealedChecks(Field(d, k));
    UpdateFails(good, pos, v, k);
    DecodeDamaged(w, d, k);
  }

  lemma UpdateFails(good: seq<byte>, pos: nat, v: byte, k: nat)
    requires |good| % 4 == 0 && pos < |good| && v != good[pos]
    requires k == BlockOf(pos, |good| / 4) && !Fails(good, k)
    ensures Fails(good[pos := v], k)
  {
    var p := |good| / 4;
    var r := pos - Times(k, p);
    BlockOfUpdate(good, pos, v, k);
    XorSumUpdate(Block(good, k), p, r, v);
    XorZero(good[pos], v);
    XorLaws(Xor(good[pos], v), 0, 0);
  }

  lemma BlockOfUpdate(good: seq<byte>, pos: nat, v: byte, j: nat)
    requires j < 4 && |good| % 4 == 0 && pos < |good|
    ensures j != BlockOf(pos, |good| / 4) ==> Block(good[pos := v], j) == Block(good, j)
    ensures j == BlockOf(pos, |good| / 4) ==>
              Block(good, j)[pos - Times(j, |good| / 4)] == good[pos]
              && Block(good[pos := v], j) == Block(good, j)[pos - Times(j, |good| / 4) := v]
  {}

  // Two failing blocks are reported as no data at all.
  lemma TwoFailuresLoseTheFrame(w: seq<byte>, j: nat, k: nat)
    requires |w| >= 4 && j < k < 4 && Fails(w, j) && Fails(w, k)
    ensures Decode(w) == [] && Failures(w) >= 2
  {}

  // ----- the encoder (source/L1L2_radio.cpp:258-300) -----

  // dataOut + base is the destination pointer; the source buffer is padded so that the
  // three blocks can be read.
  method FecEncode2(dataIn: seq<byte>, dataOut: array<byte>, base: nat, sizeIn: nat)
    returns (sizeOut: nat)
    requires 3 * BlockSize(sizeIn) <= |dataIn| && base + SizeWithFec(sizeIn) <= dataOut.Length
    modifies dataOut
    ensures sizeOut == SizeWithFec(sizeIn)
    ensures dataOut[base..base + sizeOut] == EncodeFirst(dataIn, BlockSize(sizeIn))
    ensures forall j | 0 <= j < dataOut.Length && !(base <= j < base + sizeOut) :: dataOut[j] == old(dataOut[j])
  {
    var b := BlockSize(sizeIn);
    sizeOut := 4 * (b + 1);
    EncodeBlocks(dataIn, dataOut, base, b);
  }

  lemma EncodedFields(data: seq<byte>, b: nat)
    requires 3 * b <= |data|
    ensures Encode(data[..3 * b]) == EncodeFirst(data, b)
  {
    var d := data[..3 * b];
    assert Part(d, 0) == data[..b] && Part(d, 1) == data[b..2 * b] && Part(d, 2) == data[2 * b..3 * b];
  }

  // The encoding loop and the four closing bytes.
  method EncodeBlocks(dataIn: seq<byte>, dataOut: array<byte>, base: nat, b: nat)
    requires 3 * b <= |dataIn| && base + 4 * (b + 1) <= dataOut.Length
    modifies dataOut
    ensures dataOut[base..base + 4 * (b + 1)] == EncodeFirst(dataIn, b)
    ensures forall j | 0 <= j < dataOut.Length && !(base <= j < base + 4 * (b + 1)) :: dataOut[j] == old(dataOut[j])
  {
    hide Parity, XorAll, XorSum, Filled, HoldsAt;
    ghost var f0, f1, f2 := dataIn[..b], dataIn[b..2 * b], dataIn[2 * b..3 * b];
    ghost var f3 := Parity(f0, f1, f2);
    var crc1, crc2, crc3, crc4 := EncodeLoop(dataIn, dataOut, base, b, f0, f1, f2, f3);
    PutFour(dataOut, base, b + 1, b, crc1, crc2, crc3, crc4, f0, f1, f2, f3);
    FourSlices(dataOut, base, f0, f1, f2, f3);
  }

  lemma ParityAt(x: seq<byte>, y: seq<byte>, z: seq<byte>, i: nat)
    requires i < |x| == |y| == |z|
    ensures Parity(x, y, z)[i] == Xor(Xor(x[i], y[i]), z[i])
  {}

  method EncodeLoop(dataIn: seq<byte>, dataOut: array<byte>, base: nat, b: nat,
                    ghost f0: seq<byte>, ghost f1: seq<byte>, ghost f2: seq<byte>, ghost f3: seq<byte>)
    returns (crc1: byte, crc2: byte, crc3: byte, crc4: byte)
    requires 3 * b <= |dataIn| && base + 4 * (b + 1) <= dataOut.Length
    requires f0 == dataIn[..b] && f1 == dataIn[b..2 * b] && f2 == dataIn[2 * b..3 * b] && f3 == Parity(f0, f1, f2)
    modifies dataOut
    ensures crc1 == XorAll(f0) && crc2 == XorAll(f1) && crc3 == XorAll(f2) && crc4 == XorAll(f3)
    ensures Filled(dataOut, base, b + 1, f0, f1, f2, f3, b)
    ensures forall j | 0 <= j < dataOut.Length && !(base <= j < base + 4 * (b + 1)) :: dataOut[j] == old(dataOut[j])
  {
    crc1, crc2, crc3, crc4 := 0, 0, 0, 0;
    for i := 0 to b
      invariant crc1 == XorSum(f0, i) && crc2 == XorSum(f1, i) && crc3 == XorSum(f2, i) && crc4 == XorSum(f3, i)
      invariant Filled(dataOut, base, b + 1, f0, f1, f2, f3, i)
      invariant forall j | 0 <= j < dataOut.Length && !(base <= j < base + 4 * (b + 1)) :: dataOut[j] == old(dataOut[j])
    {
      var field1 := dataIn[i];
      var field2 := dataIn[b + i];
      var field3 := dataIn[2 * b + i];
      crc1, crc2, crc3, crc4 :=
        EncodeOne(field1, field2, field3, dataOut, base, b, i, crc1, crc2, crc3, crc4, f0, f1, f2, f3);
    }
  }

  // One turn of the encoding loop.
  method EncodeOne(field1: byte, field2: byte, field3: byte, dataOut: array<byte>, base: nat, b: nat, i: nat,
                   before1: byte, before2: byte, before3: byte, before4: byte,
                   ghost f0: seq<byte>, ghost f1: seq<byte>, ghost f2: seq<byte>, ghost f3: seq<byte>)
    returns (crc1: byte, crc2: byte, crc3: byte, crc4: byte)
    requires i < b == |f0| == |f1| == |f2| && f3 == Parity(f0, f1, f2) && base + 4 * (b + 1) <= dataOut.Length
    requires field1 == f0[i] && field2 == f1[i] && field3 == f2[i]
    requires before1 == XorSum(f0, i) && before2 == XorSum(f1, i)
    requires before3 == XorSum(f2, i) && before4 == XorSum(f3, i)
    requires Filled(dataOut, base, b + 1, f0, f1, f2, f3, i)
    modifies dataOut
    ensures crc1 == XorSum(f0, i + 1) && crc2 == XorSum(f1, i + 1)
    ensures crc3 == XorSum(f2, i + 1) && crc4 == XorSum(f3, i + 1)
    ensures Filled(dataOut, base, b + 1, f0, f1, f2, f3, i + 1)
    ensures forall j | 0 <= j < dataOut.Length && !(base <= j < base + 4 * (b + 1)) :: dataOut[j] == old(dataOut[j])
  {
    hide Parity, Xor, XorSum, Filled, HoldsAt;
    ParityAt(f0, f1, f2, i);
    var field4 := Xor(Xor(field1, field2), field3);
    crc1 := Push(f0, i, before1, field1);
    crc2 := Push(f1, i, before2, field2);
    crc3 := Push(f2, i, before3, field3);
    crc4 := Push(f3, i, before4, field4);
    PutFour(dataOut, base, b + 1, i, field1, field2, field3, field4, f0, f1, f2, f3);
  }

  // One step of a running XOR.
  function Push(ghost s: seq<byte>, ghost i: nat, sum: byte, v: byte): (next: byte)
    requires i < |s| && sum == XorSum(s, i) && v == s[i]
    ensures next == XorSum(s, i + 1)
  {
    Xor(sum, v)
  }

  // out holds the first n bytes of f from position at.
  predicate HoldsAt(out: array<byte>, at: nat, f: seq<byte>, n: nat)
    requires n <= |f| && at + n <= out.Length
    reads out
  {
    forall j | 0 <= j < n :: out[at + j] == f[j]
  }

  // The first n bytes of each of the four blocks have been written.
  predicate Filled(out: array<byte>, base: nat, p: nat,
                   f0: seq<byte>, f1: seq<byte>, f2: seq<byte>, f3: seq<byte>, n: nat)
    requires base + 4 * p <= out.Length && n <= p
    requires n <= |f0| == |f1| == |f2| == |f3|
    reads out
  {
    && HoldsAt(out, base, f0, n) && HoldsAt(out, base + p, f1, n)
    && HoldsAt(out, base + 2 * p, f2, n) && HoldsAt(out, base + 3 * p, f3, n)
  }

  // One byte into each of the four blocks of p bytes.
  method PutFour(out: array<byte>, base: nat, p: nat, i: nat, v0: byte, v1: byte, v2: byte, v3: byte,
                 ghost f0: seq<byte>, ghost f1: seq<byte>, ghost f2: seq<byte>, ghost f3: seq<byte>)
    requires i < p && base + 4 * p <= out.Length && i <= |f0| == |f1| == |f2| == |f3|
    requires Filled(out, base, p, f0, f1, f2, f3, i)
    modifies out
    ensures Filled(out, base, p, f0, f1, f2, f3, i)
    ensures out[base + i] == v0 && out[base + p + i] == v1 && out[base + 2 * p + i] == v2 && out[base + 3 * p + i] == v3
    ensures i < |f0| && v0 == f0[i] && v1 == f1[i] && v2 == f2[i] && v3 == f3[i]
            ==> Filled(out, base, p, f0, f1, f2, f3, i + 1)
    ensures forall j | 0 <= j < out.Length && !(base <= j < base + 4 * p) :: out[j] == old(out[j])
  {
    out[base + i] := v0;
    out[base + p + i] := v1;
    out[base + 2 * p + i] := v2;
    out[base + 3 * p + i] := v3;
  }

  lemma SealedSlice(out: array<byte>, at: nat, f: seq<byte>)
    requires at + |f| < out.Length && HoldsAt(out, at, f, |f|) && out[at + |f|] == XorAll(f)
    ensures out[at..at + |f| + 1] == Sealed(f)
  {
    assert out[at..at + |f|] == f;
  }

  lemma FourSlices(out: array<byte>, base: nat, f0: seq<byte>, f1: seq<byte>, f2: seq<byte>, f3: seq<byte>)
    requires |f0| == |f1| == |f2| == |f3| && base + 4 * (|f0| + 1) <= out.Length
    requires Filled(out, base, |f0| + 1, f0, f1, f2, f3, |f0|)
    requires out[base + |f0|] == XorAll(f0) && out[base + (|f0| + 1) + |f0|] == XorAll(f1)
    requires out[base + 2 * (|f0| + 1) + |f0|] == XorAll(f2) && out[base + 3 * (|f0| + 1) + |f0|] == XorAll(f3)
    ensures out[base..base + 4 * (|f0| + 1)] == FourSealed(f0, f1, f2, f3)
  {
    hide XorAll, FourSealed, Sealed, HoldsAt;
    var p := |f0| + 1;
    SealedSlice(out, base, f0);
    SealedSlice(out, base + p, f1);
    SealedSlice(out, base + 2 * p, f2);
    SealedSlice(out, base + 3 * p, f3);
    ghost var w := out[..];
    assert w[base..base + p] == Sealed(f0) && w[base + p..base + 2 * p] == Sealed(f1);
    assert w[base + 2 * p..base + 3 * p] == Sealed(f2) && w[base + 3 * p..base + 4 * p] == Sealed(f3);
    SliceInFour(out[..], base, p, f0, f1, f2, f3);
  }

  lemma SliceInFour(w: seq<byte>, base: nat, p: nat, f0: seq<byte>, f1: seq<byte>, f2: seq<byte>, f3: seq<byte>)
    requires |f0| == |f1| == |f2| == |f3| && p == |f0| + 1 && base + 4 * p <= |w|
    requires w[base..base + p] == Sealed(f0) && w[base + p..base + 2 * p] == Sealed(f1)
    requires w[base + 2 * p..base + 3 * p] == Sealed(f2) && w[base + 3 * p..base + 4 * p] == Sealed(f3)
    ensures w[base..base + 4 * p] == FourSealed(f0, f1, f2, f3)
  {
    assert w[base..base + 4 * p]
        == w[base..base + p] + w[base + p..base + 2 * p] + w[base + 2 * p..base + 3 * p]
            + w[base + 3 * p..base + 4 * p];
  }

  // ----- the decoder (source/L1L2_radio.cpp:302-386) -----

  // The four blocks of a window, read off the ring.
  lemma BlockWindows(ring: seq<byte>, rd: nat, size: nat)
    requires |ring| == RX_RING
    ensures var w, p := Window(ring, rd, size), size / 4;
            && Block(w, 0) == Window(ring, rd, p) && Block(w, 1) == Window(ring, rd + p, p)
            && Block(w, 2) == Window(ring, rd + 2 * p, p) && Block(w, 3) == Window(ring, rd + 3 * p, p)
  {
    var p := size / 4;
    WindowSlice(ring, rd, size, 0, p);
    WindowSlice(ring, rd, size, p, p);
    WindowSlice(ring, rd, size, 2 * p, p);
    WindowSlice(ring, rd, size, 3 * p, p);
  }

  // Reads sizeIn bytes of the ring at position rd; the caller's read pointer moves to newRd.
  method FecDecode(ring: array<byte>, rd: nat, dataOut: array<byte>, sizeIn: nat)
    returns (sizeOut: nat, nbErrors: nat, newRd: nat)
    requires ring != dataOut && ring.Length == RX_RING
    requires 4 <= sizeIn && 3 * (sizeIn / 4 - 1) <= dataOut.Length
    modifies dataOut
    ensures nbErrors == Failures(Window(ring[..], rd, sizeIn))
    ensures sizeOut == |Decode(Window(ring[..], rd, sizeIn))| <= dataOut.Length
    ensures dataOut[..sizeOut] == Decode(Window(ring[..], rd, sizeIn))
    ensures newRd == rd + sizeIn
  {
    hide Window, Decode, Failures, Message, XorAll;
    ghost var bytes := ring[..];
    var p := sizeIn / 4;
    ghost var b0, b1 := Window(bytes, rd, p), Window(bytes, rd + p, p);
    ghost var b2, b3 := Window(bytes, rd + 2 * p, p), Window(bytes, rd + 3 * p, p);
    DecodeWindow(bytes, rd, sizeIn, b0, b1, b2, b3);
    var check1 := BlockCheck(ring, rd, p);
    var check2 := BlockCheck(ring, rd + p, p);
    var check3 := BlockCheck(ring, rd + 2 * p, p);
    var check4 := BlockCheck(ring, rd + 3 * p, p);
    nbErrors := CountErrors(check1, check2, check3, check4);
    if nbErrors > 1 {
      sizeOut := 0;
    } else {
      sizeOut := 3 * (p - 1);
      RecoverFields(ring, rd, p, dataOut, check1 == 0, check2 == 0, check3 == 0, bytes, b0, b1, b2, b3);
    }
    newRd := rd + sizeIn;
  }

  lemma DecodeWindow(bytes: seq<byte>, rd: nat, size: nat, b0: seq<byte>, b1: seq<byte>, b2: seq<byte>, b3: seq<byte>)
    requires |bytes| == RX_RING && size >= 4
    requires var p := size / 4;
             && b0 == Window(bytes, rd, p) && b1 == Window(bytes, rd + p, p)
             && b2 == Window(bytes, rd + 2 * p, p) && b3 == Window(bytes, rd + 3 * p, p)
    ensures var w := Window(bytes, rd, size);
            var failures :=
              Count(XorAll(b0) != 0) + Count(XorAll(b1) != 0) + Count(XorAll(b2) != 0) + Count(XorAll(b3) != 0);
            && Failures(w) == failures
            && Decode(w) == if failures > 1 then [] else Message(b0, b1, b2, b3)
  {
    BlockWindows(bytes, rd, size);
  }

  // How many of the four checks fail.
  method CountErrors(check1: byte, check2: byte, check3: byte, check4: byte) returns (nbErrors: nat)
    ensures nbErrors == Count(check1 != 0) + Count(check2 != 0) + Count(check3 != 0) + Count(check4 != 0)
  {
    nbErrors := 0;
    if check1 != 0 { nbErrors := nbErrors + 1; }
    if check2 != 0 { nbErrors := nbErrors + 1; }
    if check3 != 0 { nbErrors := nbErrors + 1; }
    if check4 != 0 { nbErrors := nbErrors + 1; }
  }

  // The three data fields, in the order the decoder writes them.
  method RecoverFields(ring: array<byte>, rd: nat, p: nat, dataOut: array<byte>, ok1: bool, ok2: bool, ok3: bool,
                       ghost bytes: seq<byte>,
                       ghost b0: seq<byte>, ghost b1: seq<byte>, ghost b2: seq<byte>, ghost b3: seq<byte>)
    requires ring != dataOut && ring.Length == RX_RING && ring[..] == bytes && p > 0 && 3 * (p - 1) <= dataOut.Length
    requires b0 == Window(bytes, rd, p) && b1 == Window(bytes, rd + p, p)
    requires b2 == Window(bytes, rd + 2 * p, p) && b3 == Window(bytes, rd + 3 * p, p)
    requires ok1 == (XorAll(b0) == 0) && ok2 == (XorAll(b1) == 0) && ok3 == (XorAll(b2) == 0)
    modifies dataOut
    ensures dataOut[..3 * (p - 1)] == Message(b0, b1, b2, b3)
  {
    hide Window, XorAll, Parity, FieldOf;
    var b := p - 1;
    ghost var d0, d1, d2 := FieldOf(b0, b1, b2, b3), FieldOf(b1, b0, b2, b3), FieldOf(b2, b0, b1, b3);
    RecoverField(ring, rd, rd + p, rd + 2 * p, rd + 3 * p, p, dataOut, 0, ok1, bytes, b0, b1, b2, b3);
    RecoverField(ring, rd + p, rd, rd + 2 * p, rd + 3 * p, p, dataOut, b, ok2, bytes, b1, b0, b2, b3);
    RecoverField(ring, rd + 2 * p, rd, rd + p, rd + 3 * p, p, dataOut, 2 * b, ok3, bytes, b2, b0, b1, b3);
    JoinThree(dataOut, d0, d1, d2);
  }

  lemma JoinThree(out: array<byte>, x: seq<byte>, y: seq<byte>, z: seq<byte>)
    requires |x| == |y| == |z| && 3 * |x| <= out.Length
    requires HoldsAt(out, 0, x, |x|) && HoldsAt(out, |x|, y, |y|) && HoldsAt(out, 2 * |x|, z, |z|)
    ensures out[..3 * |x|] == x + y + z
  {
    var b := |x|;
    assert out[..b] == x && out[b..2 * b] == y && out[2 * b..3 * b] == z;
    assert out[..3 * b] == out[..b] + out[b..2 * b] + out[2 * b..3 * b];
  }

  // The running XOR of the block of p bytes at position at.
  method BlockCheck(ring: array<byte>, at: nat, p: nat) returns (check: byte)
    requires ring.Length == RX_RING
    ensures check == XorAll(Window(ring[..], at, p))
  {
    ghost var block := Window(ring[..], at, p);
    check := 0;
    for i := 0 to p
      invariant check == XorSum(block, i)
    {
      check := Push(block, i, check, ring[(at + i) % RX_RING]);
    }
  }

  // Copies the data of the block at position own, or rebuilds it from the blocks at x, y, z.
  method RecoverField(ring: array<byte>, own: nat, x: nat, y: nat, z: nat, p: nat, dataOut: array<byte>, at: nat,
                      ok: bool, ghost bytes: seq<byte>,
                      ghost bOwn: seq<byte>, ghost blkX: seq<byte>, ghost blkY: seq<byte>, ghost blkZ: seq<byte>)
    requires ring != dataOut && ring.Length == RX_RING && ring[..] == bytes && p > 0 && at + p - 1 <= dataOut.Length
    requires bOwn == Window(bytes, own, p) && blkX == Window(bytes, x, p)
    requires blkY == Window(bytes, y, p) && blkZ == Window(bytes, z, p)
    requires ok == (XorAll(bOwn) == 0)
    modifies dataOut
    ensures ring[..] == bytes
    ensures HoldsAt(dataOut, at, FieldOf(bOwn, blkX, blkY, blkZ), p - 1)
    ensures forall j | 0 <= j < at :: dataOut[j] == old(dataOut[j])
  {
    ghost var wanted := FieldOf(bOwn, blkX, blkY, blkZ);
    assert forall i | 0 <= i < p - 1 ::
        wanted[i] == if ok then bytes[(own + i) % RX_RING]
                     else Xor(Xor(bytes[(x + i) % RX_RING], bytes[(y + i) % RX_RING]), bytes[(z + i) % RX_RING]);
    CopyField(ring, own, x, y, z, dataOut, at, p - 1, ok, bytes, wanted);
  }

  method CopyField(ring: array<byte>, own: nat, x: nat, y: nat, z: nat, dataOut: array<byte>, at: nat, b: nat,
                   ok: bool, ghost bytes: seq<byte>, ghost wanted: seq<byte>)
    requires ring != dataOut && ring.Length == RX_RING && ring[..] == bytes && |wanted| == b && at + b <= dataOut.Length
    requires forall i | 0 <= i < b ::
               wanted[i] == if ok then bytes[(own + i) % RX_RING]
                            else Xor(Xor(bytes[(x + i) % RX_RING], bytes[(y + i) % RX_RING]), bytes[(z + i) % RX_RING])
    modifies dataOut
    ensures ring[..] == bytes
    ensures HoldsAt(dataOut, at, wanted, b)
    ensures forall j | 0 <= j < at :: dataOut[j] == old(dataOut[j])
  {
    var n := RX_RING;
    for i := 0 to b
      invariant ring[..] == bytes
      invariant HoldsAt(dataOut, at, wanted, i)
      invariant forall j | 0 <= j < at :: dataOut[j] == old(dataOut[j])
    {
      var v: byte;
      if ok {
        v := ring[(own + i) % n];
      } else {
        v := ring[(x + i) % n];
        v := Xor(v, ring[(y + i) % n]);
        v := Xor(v, ring[(z + i) % n]);
      }
      dataOut[at + i] := v;
    }
  }
}
