// The byte in front of every frame: direction, start mark, five bits of content, parity
// (source/TDMA.cpp:67-92, 145-190).
module TdmaByte {
  import opened Bytes

  const SYNCHRO: nat := 0x20
  const DOWNLINK: nat := 0x40

  // TDMA_byte_elaboration: the value is the frame number of the master or the queue length of a
  // client, of which five bits are sent.
  function ElaborateByte(master: bool, value: nat, synchro: bool): (b: byte)
  {
    var five: nat := if master then value % 32 else if value > 30 then 30 else value;
    var seven: byte := five + (if master then DOWNLINK else 0) + (if synchro then SYNCHRO else 0);
    AddParity(seven)
  }

  function AddParity(x: byte): (b: byte)
    requires x < 128
    ensures b == x + ParityBitElab(x)
  {
    ParityRoundTrip(x);
    x + ParityBitElab(x)
  }

  predicate IsSynchro(b: byte) {
    b as int / SYNCHRO % 2 == 1
  }

  predicate FromMaster(b: byte) {
    b as int / DOWNLINK % 2 == 1
  }

  lemma ByteRoundTrip(master: bool, value: nat, synchro: bool)
    ensures var b := ElaborateByte(master, value, synchro);
            && ParityBitCheck(b) && FromMaster(b) == master && IsSynchro(b) == synchro
            && b % 32 == if master then value % 32 else if value > 30 then 30 else value
  {
    var five: nat := if master then value % 32 else if value > 30 then 30 else value;
    var seven: byte := five + (if master then DOWNLINK else 0) + (if synchro then SYNCHRO else 0);
    hide ParityBitCheck, ParityBitElab;
    ParityRoundTrip(seven);
    LowBits(ElaborateByte(master, value, synchro), seven);
    SevenBits(five, master, synchro);
  }

  lemma SevenBits(five: nat, master: bool, synchro: bool)
    requires five < 32
    ensures var seven := five + (if master then 0x40 else 0) + (if synchro then 0x20 else 0);
            seven % 32 == five && (seven / 32 % 2 == 1 <==> synchro) && (seven / 64 == 1 <==> master) && seven < 128
  {}

  // Direction 0x40, start mark 0x20, and the bit that makes the number of ones even.
  lemma BytesOnAir()
    ensures ElaborateByte(true, 0, false) == 0xC0 && ElaborateByte(true, 32, true) == 0x60
    ensures ElaborateByte(false, 0, true) == 0xA0 && ElaborateByte(false, 99, false) == 30
  {
    assert BitSum(1) == 1 && BitSum(2) == 1 && BitSum(3) == 2;
    assert BitSum(4) == 1 && BitSum(8) == 1 && BitSum(16) == 1 && BitSum(32) == 1 && BitSum(64) == 1;
    assert BitSum(6) == 2 && BitSum(12) == 2 && BitSum(24) == 2 && BitSum(48) == 2 && BitSum(96) == 2;
    assert BitSum(7) == 3 && BitSum(15) == 4 && BitSum(30) == 4;
  }

  lemma LowBits(b: byte, seven: byte)
    requires b % 128 == seven
    ensures b % 32 == seven % 32
    ensures b as int / 32 % 2 == seven as int / 32 % 2 && b as int / 64 % 2 == seven as int / 64
  {
    assert b == seven || b == seven + 128;
  }
}
