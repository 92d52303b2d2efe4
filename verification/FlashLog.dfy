// The configuration log in flash: sixteen banks in two erasable sectors, written round
// and round under a growing index (source/config_flash.cpp:33-80, 111-120, 145-153).
module FlashLog {

  const MAGIC: nat := 0xBABE_BABE
  const BLANK: nat := 0xFFFF_FFFF
  const BANKS: nat := 16

  // A 256-byte bank: magic word, index, configuration.
  datatype Bank = Bank(magic: nat, index: nat, config: seq<nat>)

  const ERASED := Bank(BLANK, BLANK, [])

  type Flash = f: seq<Bank> | |f| == BANKS witness seq(BANKS, i => ERASED)

  // A bank that the scan takes into account.
  predicate Counts(b: Bank) {
    b.magic == MAGIC && b.index != BLANK && b.index > 0
  }

  // The magic word, and an index between the blank ones.
  lemma CountedExactly(b: Bank)
    ensures Counts(b) <==> b.magic == 0xBABE_BABE && b.index != 0 && b.index != 0xFFFF_FFFF
  {}

  predicate Empty(f: Flash) {
    forall i | 0 <= i < BANKS :: !Counts(f[i])
  }

  // Highest index among the first n banks.
  function Highest(f: Flash, n: nat): nat
    requires n <= BANKS
  {
    if n == 0 then 0
    else
      var h := Highest(f, n - 1);
      if f[n - 1].magic == MAGIC && f[n - 1].index != BLANK && f[n - 1].index > h then f[n - 1].index else h
  }

  // virt_EEPROM_read: the highest index, 0 for none, and the configuration found there.
  function ReadBack(f: Flash): (nat, seq<nat>) {
    var h := Highest(f, BANKS);
    if h != 0 then (h, f[h % BANKS].config) else (0, [])
  }

  function NewIndex(previous: nat): nat {
    if previous == 0 then 0x100 else previous + 1
  }

  // Erasing covers eight banks.
  function Erase(f: Flash, from: nat): Flash
    requires from == 0 || from == 8
  {
    if from == 0 then
      [ERASED, ERASED, ERASED, ERASED, ERASED, ERASED, ERASED, ERASED] + f[8..]
    else
      f[..8] + [ERASED, ERASED, ERASED, ERASED, ERASED, ERASED, ERASED, ERASED]
  }

  // virt_EEPROM_write up to the program call.
  function Prepared(f: Flash, previous: nat): Flash {
    var index := NewIndex(previous);
    if index % 8 == 0 then Erase(f, index % BANKS) else f
  }

  function Programmed(f: Flash, previous: nat, config: seq<nat>): Flash {
    var index := NewIndex(previous);
    Prepared(f, previous)[index % BANKS := Bank(MAGIC, index, config)]
  }

  // ----- the methods -----

  class Eeprom {
    var banks: Flash

    method Read() returns (highest: nat, config: seq<nat>)
      ensures (highest, config) == ReadBack(banks)
    {
      highest, config := 0, [];
      for i := 0 to BANKS
        invariant highest == Highest(banks, i)
      {
        if banks[i].magic == MAGIC {
          var index := banks[i].index;
          if index != BLANK && index > highest {
            highest := index;
          }
        }
      }
      if highest != 0 {
        config := banks[highest % BANKS].config;
      }
    }

    // Programming only clears bits, so the bank has to be erased beforehand.
    method Program(at: nat, b: Bank)
      requires at < BANKS && banks[at] == ERASED
      modifies this
      ensures banks == old(banks)[at := b]
    {
      banks := banks[at := b];
    }

    method Write(config: seq<nat>, previous: nat) returns (index: nat)
      requires Ready(banks, previous)
      modifies this
      ensures index == NewIndex(previous) && banks == Programmed(old(banks), previous, config)
    {
      var before := previous;
      if before == 0 {
        before := 0xFF;
      }
      index := before + 1;
      ReadyForProgram(banks, previous);
      if index % 8 == 0 {
        banks := Erase(banks, index % BANKS);
      }
      Program(index % BANKS, Bank(MAGIC, index, config));
    }
  }

  // ----- the invariant -----

  // Index `index` was the last one saved, or nothing has been saved yet.
  predicate Ready(f: Flash, index: nat) {
    if index == 0 then Empty(f)
    else
      && 0x100 <= index < BLANK
      && f[index % BANKS].magic == MAGIC && f[index % BANKS].index == index
      && (forall i | 0 <= i < BANKS && Counts(f[i]) :: f[i].index <= index)
      && (forall i | 0 <= i < BANKS && i / 8 == (index % BANKS) / 8 && i > index % BANKS :: f[i] == ERASED)
  }

  // The next bank lies in the same sector, right behind, or opens the other sector.
  lemma NextBank(previous: nat)
    ensures (previous + 1) % 8 != 0 ==> (previous + 1) % 16 == previous % 16 + 1
    ensures (previous + 1) % 8 != 0 ==> (previous + 1) % 16 / 8 == previous % 16 / 8
    ensures (previous + 1) % 8 == 0
            ==> ((previous + 1) % 16 == 0 && previous % 16 == 15) || ((previous + 1) % 16 == 8 && previous % 16 == 7)
  {
    var q, r := previous / 16, previous % 16;
    if r == 15 {
      InBank(q + 1, 0);
    } else {
      InBank(q, r + 1);
    }
  }

  lemma InBank(q: nat, r: nat)
    requires r < 16
    ensures (16 * q + r) % 16 == r && (16 * q + r) % 8 == r % 8
  {
    InSector(2 * q + r / 8, r % 8);
  }

  lemma InSector(k: nat, s: nat)
    requires s < 8
    ensures (8 * k + s) % 8 == s
  {}

  // Erasing leaves the other sector alone.
  lemma EraseKeeps(f: Flash, from: nat, i: nat)
    requires (from == 0 || from == 8) && i < BANKS
    ensures Erase(f, from)[i] == if i / 8 == from / 8 then ERASED else f[i]
  {}

  // The target of the next save is erased by the time it is programmed.
  lemma ReadyForProgram(f: Flash, previous: nat)
    requires Ready(f, previous)
    ensures Prepared(f, previous)[NewIndex(previous) % BANKS] == ERASED
  {
    hide Erase, Counts;
    var index := NewIndex(previous);
    NextBank(index - 1);
    if index % 8 == 0 {
      EraseKeeps(f, index % BANKS, index % BANKS);
    }
  }

  lemma {:induction false} HighestIs(f: Flash, n: nat, top: nat)
    requires n <= BANKS && forall i | 0 <= i < n && Counts(f[i]) :: f[i].index <= top
    ensures Highest(f, n) <= top
    ensures forall i | 0 <= i < n && Counts(f[i]) :: f[i].index <= Highest(f, n)
  {
    if n > 0 {
      HighestIs(f, n - 1, top);
    }
  }

  // In a ready flash the reader finds the last save.
  lemma ReadyReadsLast(f: Flash, index: nat)
    requires Ready(f, index)
    ensures ReadBack(f) == if index == 0 then (0, []) else (index, f[index % BANKS].config)
  {
    HighestIs(f, BANKS, index);
    if index != 0 {
      assert Counts(f[index % BANKS]);
    }
  }

  // What the flash holds when the program call comes: every bank as it was, or erased; all of the
  // sector behind the new bank erased; the last save still there.
  lemma PreparedIs(f: Flash, previous: nat)
    requires Ready(f, previous)
    ensures var p, index := Prepared(f, previous), NewIndex(previous);
            && (forall i | 0 <= i < BANKS :: p[i] == f[i] || p[i] == ERASED)
            && (forall i | 0 <= i < BANKS && i / 8 == index % BANKS / 8 && i > index % BANKS :: p[i] == ERASED)
            && (previous != 0 ==> p[previous % BANKS] == f[previous % BANKS])
  {
    hide Erase, Counts;
    var index := NewIndex(previous);
    NextBank(index - 1);
    if index % 8 == 0 {
      forall i | 0 <= i < BANKS
        ensures Prepared(f, previous)[i] == if i / 8 == index % BANKS / 8 then ERASED else f[i]
      {
        EraseKeeps(f, index % BANKS, i);
      }
    }
  }

  lemma WriteKeepsReady(f: Flash, previous: nat, config: seq<nat>)
    requires Ready(f, previous) && NewIndex(previous) < BLANK
    ensures Ready(Programmed(f, previous, config), NewIndex(previous))
    ensures ReadBack(Programmed(f, previous, config)) == (NewIndex(previous), config)
  {
    hide Prepared, Erase, ReadBack;
    PreparedIs(f, previous);
    ReadyReadsLast(Programmed(f, previous, config), NewIndex(previous));
  }

  // A power cut after the erase: everything saved before is still there.
  lemma PowerCutHarmless(f: Flash, previous: nat)
    requires Ready(f, previous)
    ensures Ready(Prepared(f, previous), previous)
    ensures ReadBack(Prepared(f, previous)) == ReadBack(f)
  {
    hide Erase, ReadBack;
    var p := Prepared(f, previous);
    PreparedIs(f, previous);
    if previous != 0 {
      SectorStays(f, previous);
    }
    ReadyReadsLast(f, previous);
    ReadyReadsLast(p, previous);
  }

  // The rest of the sector of the last save stays erased.
  lemma SectorStays(f: Flash, previous: nat)
    requires Ready(f, previous) && previous != 0
    ensures forall i | 0 <= i < BANKS && i / 8 == previous % BANKS / 8 && i > previous % BANKS ::
              Prepared(f, previous)[i] == ERASED
  {
    hide Counts;
    PreparedIs(f, previous);
  }

  // ----- whole runs -----

  // Saves, saves cut short between erase and program, and restarts that read the index.
  datatype Event = Save(config: seq<nat>) | CutSave | Restart

  datatype State = State(flash: Flash, index: nat, last: seq<nat>)

  function Apply(s: State, e: Event): State {
    match e
    case Save(config) => State(Programmed(s.flash, s.index, config), NewIndex(s.index), config)
    case CutSave => State(Prepared(s.flash, s.index), ReadBack(Prepared(s.flash, s.index)).0, s.last)
    case Restart => State(s.flash, ReadBack(s.flash).0, s.last)
  }

  function Run(f: Flash, events: seq<Event>): State {
    if events == [] then State(f, 0, []) else Apply(Run(f, events[..|events| - 1]), events[|events| - 1])
  }

  function Saves(events: seq<Event>): nat {
    if events == [] then 0
    else Saves(events[..|events| - 1]) + (if events[|events| - 1].Save? then 1 else 0)
  }

  // Started on a flash without a valid bank, whatever happens in between: the reader gets
  // the last configuration saved, under the index that counts the saves.
  lemma {:induction false} RunReadsLastSave(f: Flash, events: seq<Event>)
    requires Empty(f) && 0xFF + Saves(events) < BLANK
    ensures var s := Run(f, events);
            && Ready(s.flash, s.index)
            && s.index == (if Saves(events) == 0 then 0 else 0xFF + Saves(events))
            && ReadBack(s.flash) == (s.index, s.last)
  {
    hide Erase, Prepared, Programmed, ReadBack;
    if events != [] {
      var before := Run(f, events[..|events| - 1]);
      RunReadsLastSave(f, events[..|events| - 1]);
      match events[|events| - 1]
      case Save(config) => WriteKeepsReady(before.flash, before.index, config);
      case CutSave => PowerCutHarmless(before.flash, before.index);
      case Restart =>
    } else {
      ReadyReadsLast(f, 0);
    }
  }
}
