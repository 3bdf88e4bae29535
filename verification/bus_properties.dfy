/** What the bus promises across several calls: the overlay, registration
    order, the write paths into RAM and ROM, and the boot sequence. */
module BusProperties {
  import opened Bytes
  import opened Faults
  import Ram
  import Rom
  import opened Bus

  /** The access at `a` goes to a registered RAM region. */
  predicate ResolvesToRam(bus: Bus, a: int) {
    var t := Resolve(bus, a);
    t.Ok? && t.value.Mapped? && bus.regions[t.value.index].RamRegion?
  }

  /** Resolution only looks at the layout, so two buses with the same layout
      send every address to the same place. */
  lemma {:induction false} ResolveDependsOnLayout(b1: Bus, b2: Bus, a: int)
    requires SameLayout(b1, b2)
    ensures Resolve(b1, a) == Resolve(b2, a)
  {
    FirstContainingDependsOnLayout(b1.regions, b2.regions, a);
  }

  lemma {:induction false} FirstContainingDependsOnLayout(rs1: seq<MemoryRegion>, rs2: seq<MemoryRegion>, a: int)
    requires |rs1| == |rs2|
    requires forall i :: 0 <= i < |rs1| ==> rs1[i].RamRegion? == rs2[i].RamRegion?
    ensures FirstContaining(rs1, a) == FirstContaining(rs2, a)
  {
    if |rs1| > 0 && !Contains(rs1[0], a) {
      FirstContainingDependsOnLayout(rs1[1..], rs2[1..], a);
    }
  }

  /** With the overlay active and a ROM registered, the low 128 KiB read as
      the ROM image, whatever else is registered there. */
  lemma OverlayReadsRom(bus: Bus, a: int)
    requires Valid(bus) && bus.overlay && bus.romTarget.Some?
    requires 0 <= a < Rom.Size
    ensures Read8(bus, a) == Ok(bus.romTarget.value.data[a])
  {
  }

  /** A negative address also passes the overlay's `a < ROM.SIZE` test; the
      translated address then lies below the ROM and its bounds assert fails. */
  lemma OverlayNegativeAddress(bus: Bus, a: int)
    requires bus.overlay && bus.romTarget.Some? && a < 0
    ensures Read8(bus, a) == Err(Unsupported)
  {
  }

  /** Under the overlay a write of any width to the low range escapes the
      bus as `Unsupported`: the adapter's exception is not a `ROMWriteException`. */
  lemma OverlayWritesFail(bus: Bus, a: int, v: int)
    requires OverlayApplies(bus, a)
    ensures Write8(bus, a, v) == Faulted(bus, Unsupported)
    ensures a % 2 == 0 ==> Write16(bus, a, v) == Faulted(bus, Unsupported)
    ensures a % 4 == 0 ==> Write32(bus, a, v) == Faulted(bus, Unsupported)
  {
  }

  /** A write that lands on a ROM region returns normally and changes nothing. */
  lemma RomWritesIgnored(bus: Bus, a: int, v: int)
    requires Resolve(bus, a).Ok? && Resolve(bus, a).value.Mapped?
    requires bus.regions[Resolve(bus, a).value.index].RomRegion?
    ensures Write8(bus, a, v) == Done(bus)
    ensures a % 2 == 0 ==> Write16(bus, a, v) == Done(bus)
    ensures a % 4 == 0 ==> Write32(bus, a, v) == Done(bus)
  {
  }

  /** An address nothing claims faults as unmapped for every width, but the
      alignment check of a 16/32-bit access comes first. */
  lemma UnmappedAccess(bus: Bus, a: int, v: int)
    requires !OverlayApplies(bus, a)
    requires forall i :: 0 <= i < |bus.regions| ==> !Contains(bus.regions[i], a)
    ensures Read8(bus, a) == Err(Unmapped(a)) && Write8(bus, a, v) == Faulted(bus, Unmapped(a))
    ensures Read16(bus, a) == Err(if a % 2 == 0 then Unmapped(a) else Misaligned(a))
    ensures Read32(bus, a) == Err(if a % 4 == 0 then Unmapped(a) else Misaligned(a))
    ensures Write16(bus, a, v) == Faulted(bus, if a % 2 == 0 then Unmapped(a) else Misaligned(a))
    ensures Write32(bus, a, v) == Faulted(bus, if a % 4 == 0 then Unmapped(a) else Misaligned(a))
  {
  }

  /** Registering another region never changes where an already mapped address resolves. */
  lemma RegisterKeepsEarlierMatches(bus: Bus, r: MemoryRegion, a: int)
    requires FirstContaining(bus.regions, a).Some?
    ensures FirstContaining(Register(bus, r).regions, a) == FirstContaining(bus.regions, a)
  {
    var i := FirstContaining(bus.regions, a).value;
    assert Contains(Register(bus, r).regions[i], a);
  }

  /** A byte written through the bus to RAM reads back masked to 8 bits, and
      every other address reads as before. */
  lemma Read8AfterWrite8(bus: Bus, a: int, v: int, b: int)
    requires Valid(bus) && ResolvesToRam(bus, a)
    ensures Write8(bus, a, v).Done?
    ensures Read8(Write8(bus, a, v).state, b) == if b == a then Ok(Lo8(v)) else Read8(bus, b)
  {
    var i := Resolve(bus, a).value.index;
    var ram := bus.regions[i].ram;
    var after := Write8(bus, a, v).state;
    assert after.regions[i] == RamRegion(Ram.Write8(ram, a, v).state);
    ResolveDependsOnLayout(bus, after, b);
    Ram.Read8AfterWrite8(ram, a, v, b);
  }

  /** `read16` after `write16` through the bus yields only the high byte written. */
  lemma Read16AfterWrite16(bus: Bus, a: int, v: int)
    requires Valid(bus) && ResolvesToRam(bus, a) && a % 2 == 0
    ensures Write16(bus, a, v).Done?
    ensures Read16(Write16(bus, a, v).state, a) == Ok(Lo8(v / 0x100))
  {
    var i := Resolve(bus, a).value.index;
    var ram := bus.regions[i].ram;
    var after := Write16(bus, a, v).state;
    assert a < Ram.End;
    assert after.regions[i] == RamRegion(Ram.Write16(ram, a, v).state);
    ResolveDependsOnLayout(bus, after, a);
  }

  /** `read32` after `write32` through the bus yields only the top byte written. */
  lemma Read32AfterWrite32(bus: Bus, a: int, v: int)
    requires Valid(bus) && ResolvesToRam(bus, a) && a % 4 == 0
    ensures Write32(bus, a, v).Done?
    ensures Read32(Write32(bus, a, v).state, a) == Ok(Lo8(v / 0x100_0000))
  {
    var i := Resolve(bus, a).value.index;
    var ram := bus.regions[i].ram;
    var after := Write32(bus, a, v).state;
    assert a + 3 <= Ram.End;
    assert after.regions[i] == RamRegion(Ram.Write32(ram, a, v).state);
    ResolveDependsOnLayout(bus, after, a);
  }

  /** Every RAM and ROM region spans its own fixed range, so an address
      between a RAM address and RAM's end resolves to the same region. */
  lemma RamNeighbour(bus: Bus, a: int, b: int)
    requires ResolvesToRam(bus, a) && a <= b <= Ram.End
    ensures Resolve(bus, b) == Resolve(bus, a)
  {
    var i := Resolve(bus, a).value.index;
    assert Contains(bus.regions[i], b);
    forall j | 0 <= j < i
      ensures !Contains(bus.regions[j], b)
    {
      assert !Contains(bus.regions[j], a);
    }
  }

  /** Every address from a RAM address up to RAM's end reads as that RAM's own `read8`. */
  lemma ReadsRam(bus: Bus, a: int)
    requires ResolvesToRam(bus, a)
    ensures var ram := bus.regions[Resolve(bus, a).value.index].ram;
      forall b :: a <= b <= Ram.End ==> Read8(bus, b) == Ram.Read8(ram, b)
  {
    forall b | a <= b <= Ram.End
      ensures Read8(bus, b) == Ram.Read8(bus.regions[Resolve(bus, a).value.index].ram, b)
    {
      RamNeighbour(bus, a, b);
    }
  }

  /** Two RAMs cover the same range; the one registered first takes every
      access and the second is never reached. */
  lemma FirstRegisteredWins(r1: Ram.Ram, r2: Ram.Ram, a: int, v: int)
    requires Ram.Valid(r1) && Ram.Valid(r2) && 0 <= a <= Ram.End
    ensures var bus := SetRomOverlayActive(Register(Register(New(), RamRegion(r1)), RamRegion(r2)), false);
      && Read8(bus, a) == Ram.Read8(r1, a)
      && Write8(bus, a, v).state.regions == [RamRegion(Ram.Write8(r1, a, v).state), RamRegion(r2)]
  {
    var bus := SetRomOverlayActive(Register(Register(New(), RamRegion(r1)), RamRegion(r2)), false);
    assert bus.regions == [RamRegion(r1), RamRegion(r2)];
    assert Contains(bus.regions[0], a);
  }

  /** With two ROMs registered the overlay mirrors the later one, while
      0x400000 and up still resolve to the earlier one. */
  lemma TwoRoms(rom1: Rom.Rom, rom2: Rom.Rom)
    requires Rom.Valid(rom1) && Rom.Valid(rom2)
    ensures var bus := Register(Register(New(), RomRegion(rom1)), RomRegion(rom2));
      && Read8(bus, 0) == Ok(rom2.data[0])
      && Read8(bus, Rom.Base) == Ok(rom1.data[0])
  {
    var bus := Register(Register(New(), RomRegion(rom1)), RomRegion(rom2));
    assert bus.regions == [RomRegion(rom1), RomRegion(rom2)];
    assert Contains(bus.regions[0], Rom.Base);
  }

  function ZeroImage(): seq<Byte> {
    seq(Rom.Size, _ => 0)
  }

  /** RAM then a zero-filled ROM on a fresh bus. */
  function MacPlus(): Bus
    requires Rom.New(ZeroImage()).Ok?
  {
    Register(Register(New(), RamRegion(Ram.New())), RomRegion(Rom.New(ZeroImage()).value))
  }

  /** Boot, first phase: while the overlay is on, address 0 reads the ROM
      and a write there escapes as `Unsupported`. */
  lemma BootOverlay()
    ensures Rom.New(ZeroImage()).Ok?
    ensures Valid(MacPlus())
    ensures Read8(MacPlus(), 0) == Ok(0)
    ensures Write8(MacPlus(), 0, 0x42) == Faulted(MacPlus(), Unsupported)
  {
    var bus := MacPlus();
    assert bus.regions[0] == RamRegion(Ram.New());
    OverlayReadsRom(bus, 0);
  }

  /** Boot, second phase: once the overlay is cleared, a byte written at 0
      lands in RAM and the ROM is untouched. */
  lemma BootSequence()
    ensures Rom.New(ZeroImage()).Ok?
    ensures var booted := SetRomOverlayActive(MacPlus(), false);
      && Write8(booted, 0, 0x42).Done?
      && Read8(Write8(booted, 0, 0x42).state, 0) == Ok(0x42)
      && Read8(Write8(booted, 0, 0x42).state, Rom.Base) == Ok(0)
  {
    BootOverlay();
    var booted := SetRomOverlayActive(MacPlus(), false);
    assert booted.regions[0] == RamRegion(Ram.New());
    assert Contains(booted.regions[0], 0);
    DivModUnique(0x42, 0x100, 0, 0x42);
    Read8AfterWrite8(booted, 0, 0x42, 0);
    assert Contains(booted.regions[1], Rom.Base) && !Contains(booted.regions[0], Rom.Base);
    assert booted.regions[1].rom.data[0] == 0;
    assert Read8(booted, Rom.Base) == Ok(0);
    Read8AfterWrite8(booted, 0, 0x42, Rom.Base);
  }

  /** 0x200000 lies between RAM and ROM, so it is unmapped. */
  lemma GapIsUnmapped()
    ensures Rom.New(ZeroImage()).Ok?
    ensures Read8(MacPlus(), 0x20_0000) == Err(Unmapped(0x20_0000))
  {
  }
}
