/** Corrected definitions for the five findings, in four places where the
    code does not do what its comments and method names describe, each next to a concrete
    input on which the code as written differs:

    - the default `read32` and the default `write32` (two findings) should
      each move four bytes, most significant first;
    - `ROM.read32` should translate the address once;
    - the bus's `read16`/`read32` should compose two and four byte reads;
    - a write under the overlay should be dropped like any other ROM write.
 */
module Corrected {
  import opened Bytes
  import opened Faults
  import Region
  import Ram
  import Rom
  import opened Bus
  import opened BusProperties

  /** A long word from four byte reads, most significant first, as a Java `int`. */
  function Read32Of(read8: int -> Result<int>, a: int): (r: Result<int>)
    ensures r.Ok? <==> read8(a).Ok? && read8(a + 1).Ok? && read8(a + 2).Ok? && read8(a + 3).Ok?
    ensures r.Ok? ==> IsInt32(r.value)
    ensures r.Ok? ==> r.value == Int32(BigEndian4(Lo8(read8(a).value), Lo8(read8(a + 1).value),
                                                  Lo8(read8(a + 2).value), Lo8(read8(a + 3).value)))
  {
    var b0 :- read8(a);
    var b1 :- read8(a + 1);
    var b2 :- read8(a + 2);
    var b3 :- read8(a + 3);
    Ok(Int32(BigEndian4(Lo8(b0), Lo8(b1), Lo8(b2), Lo8(b3))))
  }

  /** Four successful byte reads determine the composed long word. */
  lemma Read32OfBytes(read8: int -> Result<int>, a: int, b0: Byte, b1: Byte, b2: Byte, b3: Byte)
    requires read8(a) == Ok(b0) && read8(a + 1) == Ok(b1) && read8(a + 2) == Ok(b2) && read8(a + 3) == Ok(b3)
    ensures Read32Of(read8, a) == Ok(Int32(BigEndian4(b0, b1, b2, b3)))
  {
    assert Lo8(b0) == b0 && Lo8(b1) == b1 && Lo8(b2) == b2 && Lo8(b3) == b3;
  }

  /** A long word as four byte writes, most significant first, stopping at the first fault. */
  function Write32Of<S>(write8: (S, int, int) -> Effect<S>, s: S, a: int, v: int): (r: Effect<S>)
    ensures var e0 := write8(s, a, Lo8(v / 0x100_0000));
      e0.Faulted? ==> r == e0
    ensures var e0 := write8(s, a, Lo8(v / 0x100_0000));
      var e1 := write8(e0.state, a + 1, Lo8(v / 0x1_0000));
      e0.Done? && e1.Faulted? ==> r == e1
    ensures var e0 := write8(s, a, Lo8(v / 0x100_0000));
      var e1 := write8(e0.state, a + 1, Lo8(v / 0x1_0000));
      var e2 := write8(e1.state, a + 2, Lo8(v / 0x100));
      e0.Done? && e1.Done? && e2.Faulted? ==> r == e2
    ensures var e0 := write8(s, a, Lo8(v / 0x100_0000));
      var e1 := write8(e0.state, a + 1, Lo8(v / 0x1_0000));
      var e2 := write8(e1.state, a + 2, Lo8(v / 0x100));
      e0.Done? && e1.Done? && e2.Done? ==> r == write8(e2.state, a + 3, Lo8(v))
  {
    var s1 :- write8(s, a, Lo8(v / 0x100_0000));
    var s2 :- write8(s1, a + 1, Lo8(v / 0x1_0000));
    var s3 :- write8(s2, a + 2, Lo8(v / 0x100));
    write8(s3, a + 3, Lo8(v))
  }

  /** RAM's own `read32` is the four-byte composition wherever the long word lies in RAM. */
  lemma RamRead32IsComposition(ram: Ram.Ram, a: int)
    requires Ram.Valid(ram) && 0 <= a && a + 3 <= Ram.End
    ensures Ram.Read32(ram, a) == Read32Of(x => Ram.Read8(ram, x), a)
  {
    var d := ram.data;
    var read8 := x => Ram.Read8(ram, x);
    assert read8(a) == Ok(d[a]) && read8(a + 1) == Ok(d[a + 1]);
    assert read8(a + 2) == Ok(d[a + 2]) && read8(a + 3) == Ok(d[a + 3]);
    Read32OfBytes(read8, a, d[a], d[a + 1], d[a + 2], d[a + 3]);
  }

  /** RAM's own `write32` is the four-byte composition wherever the long word lies in RAM. */
  lemma RamWrite32IsComposition(ram: Ram.Ram, a: int, v: int)
    requires Ram.Valid(ram) && 0 <= a && a + 3 <= Ram.End
    ensures Ram.Write32(ram, a, v) == Write32Of(Ram.Write8, ram, a, v)
  {
    var b0, b1, b2, b3 := Lo8(v / 0x100_0000), Lo8(v / 0x1_0000), Lo8(v / 0x100), Lo8(v);
    assert Lo8(b0) == b0 && Lo8(b1) == b1 && Lo8(b2) == b2 && Lo8(b3) == b3;
  }

  /** The corrected defaults round-trip: a long word written is read back as
      the Java `int` holding its low 32 bits. */
  lemma ComposedRoundTrip(ram: Ram.Ram, a: int, v: int)
    requires Ram.Valid(ram) && 0 <= a && a + 3 <= Ram.End
    ensures Write32Of(Ram.Write8, ram, a, v).Done?
    ensures var after := Write32Of(Ram.Write8, ram, a, v).state;
      Read32Of(x => Ram.Read8(after, x), a) == Ok(Int32(v))
  {
    RamWrite32IsComposition(ram, a, v);
    var after := Write32Of(Ram.Write8, ram, a, v).state;
    Ram.Read32AfterWrite32(ram, a, v);
    RamRead32IsComposition(after, a);
  }

  /** RAM holding 12 34 56 78 at address 0. */
  function Sample(): Ram.Ram {
    Ram.Write32(Ram.New(), 0, 0x1234_5678).state
  }

  lemma SampleWord()
    ensures BytesOf32(0x1234_5678) == [0x12, 0x34, 0x56, 0x78]
  {
    DivModUnique(0x1234_5678, 0x100_0000, 0x12, 0x34_5678);
    DivModUnique(0x1234_5678, 0x1_0000, 0x1234, 0x5678);
    DivModUnique(0x1234_5678, 0x100, 0x12_3456, 0x78);
    DivModUnique(0x1234, 0x100, 0x12, 0x34);
    DivModUnique(0x12_3456, 0x100, 0x1234, 0x56);
    DivModUnique(0x12, 0x100, 0, 0x12);
  }

  lemma SampleBytes()
    ensures Ram.Valid(Sample())
    ensures var d := Sample().data; d[0] == 0x12 && d[1] == 0x34 && d[2] == 0x56 && d[3] == 0x78
    ensures Sample().data[..4] == [0x12, 0x34, 0x56, 0x78]
  {
    var bs := BytesOf32(0x1234_5678);
    SampleWord();
    var zero := Ram.New();
    assert Ram.Valid(zero) && Region.Contains(Ram.Base, Ram.End, 0);
    var w := Ram.Write32(zero, 0, 0x1234_5678);
    assert w.Done? && Ram.Stored(zero, w.state, 0, bs);
    var d := Sample().data;
    assert d[0] == bs[0] && d[1] == bs[1] && d[2] == bs[2] && d[3] == bs[3];
  }

  /** The default `read32` as written, on RAM holding 12 34 56 78 at 0,
      gives 0x343456: the low byte of the word 1234 and the word 3456. */
  lemma DefaultRead32AsWrittenDiffers()
    ensures Region.DefaultRead32(x => Ram.Read16(Sample(), x), 0) == Ok(0x34_3456)
  {
    var s := Sample();
    SampleBytes();
    var read16 := x => Ram.Read16(s, x);
    assert read16(0) == Ok(0x1234) && read16(1) == Ok(0x3456);
    DivModUnique(0x1234, 0x100, 0x12, 0x34);
    DivModUnique(0x3456, 0x1_0000, 0, 0x3456);
  }

  /** The four-byte composition on the same RAM gives 0x12345678. */
  lemma ComposedRead32Sample()
    ensures Read32Of(x => Ram.Read8(Sample(), x), 0) == Ok(0x1234_5678)
  {
    var s := Sample();
    SampleBytes();
    var read8 := x => Ram.Read8(s, x);
    assert read8(0) == Ok(0x12) && read8(1) == Ok(0x34) && read8(2) == Ok(0x56) && read8(3) == Ok(0x78);
    Read32OfBytes(read8, 0, 0x12, 0x34, 0x56, 0x78);
    Int32OfInt32(0x1234_5678);
  }

  /** The default `write32` as written, on fresh RAM, leaves 34 00 78 00 at 0:
      the bytes 12 and 56 are lost and two bytes are never written. */
  lemma DefaultWrite32AsWrittenDiffers()
    ensures var d := Region.DefaultWrite32(Ram.Write8, Ram.New(), 0, 0x1234_5678).state.data;
      d[0] == 0x34 && d[1] == 0 && d[2] == 0x78 && d[3] == 0
  {
    var zero := Ram.New();
    assert Lo16(0x1234_5678 / 0x1_0000) == 0x1234 && Lo8(0x1234) == 0x34;
    var w1 := Ram.Write8(zero, 0, 0x1234);
    assert w1.Done? && Ram.Stored(zero, w1.state, 0, [0x34]);
    assert Lo16(0x1234_5678) == 0x5678 && Lo8(0x5678) == 0x78;
    var w2 := Ram.Write8(w1.state, 2, 0x5678);
    assert w2.Done? && Ram.Stored(w1.state, w2.state, 2, [0x78]);
  }

  /** The default `read32` as written over RAM's `read16`, for every address
      with three bytes in RAM: the byte at `a` is lost and the byte at `a + 1`
      appears twice, once in each half. */
  lemma DefaultRead32OverRam(ram: Ram.Ram, a: int)
    requires Ram.Valid(ram) && 0 <= a && a + 2 <= Ram.End
    ensures var b1: int, b2: int := ram.data[a + 1], ram.data[a + 2];
      Region.DefaultRead32(x => Ram.Read16(ram, x), a) == Ok(b1 * 0x1_0000 + b1 * 0x100 + b2)
  {
    var b1: int, b2: int := ram.data[a + 1], ram.data[a + 2];
    var read16 := x => Ram.Read16(ram, x);
    var hi, lo := read16(a).value, read16(a + 1).value;
    assert hi % 0x100 == b1;
    assert lo / 0x100 == b1 && lo % 0x100 == b2;
    assert lo == b1 * 0x100 + b2;
    DivModUnique(lo, 0x1_0000, 0, lo);
    var r := Region.DefaultRead32(read16, a).value;
    assert r / 0x1_0000 == b1 && r % 0x1_0000 == lo;
  }

  /** The default `write32` as written over RAM's `write8`, for every address
      with three bytes in RAM: it stores the low byte of the upper half at `a`
      and the low byte of `v` at `a + 2`, and leaves `a + 1`, `a + 3` and every
      other byte as they were. */
  lemma DefaultWrite32OverRam(ram: Ram.Ram, a: int, v: int)
    requires Ram.Valid(ram) && 0 <= a && a + 2 <= Ram.End
    ensures var r := Region.DefaultWrite32(Ram.Write8, ram, a, v);
      && r.Done? && |r.state.data| == |ram.data|
      && r.state.data[a] == Lo8(v / 0x1_0000) && r.state.data[a + 2] == Lo8(v)
      && forall i :: 0 <= i < |ram.data| && i != a && i != a + 2 ==> r.state.data[i] == ram.data[i]
  {
    Lo8OfLo16(v / 0x1_0000);
    Lo8OfLo16(v);
    var w1 := Ram.Write8(ram, a, Lo16(v / 0x1_0000));
    assert w1.Done? && Ram.Stored(ram, w1.state, a, [Lo8(v / 0x1_0000)]);
    var w2 := Ram.Write8(w1.state, a + 2, Lo16(v));
    assert w2.Done? && Ram.Stored(w1.state, w2.state, a + 2, [Lo8(v)]);
  }

  /** The four-byte composition, on fresh RAM, leaves 12 34 56 78 at 0. */
  lemma ComposedWrite32Sample()
    ensures Write32Of(Ram.Write8, Ram.New(), 0, 0x1234_5678).state.data[..4] == [0x12, 0x34, 0x56, 0x78]
  {
    SampleBytes();
    RamWrite32IsComposition(Ram.New(), 0, 0x1234_5678);
  }

  /** `ROM.read32` translating the address once. */
  function RomRead32(rom: Rom.Rom, a: int): (r: Result<int>)
    ensures Rom.Valid(rom) ==> (r.Ok? <==> Rom.Base <= a && a + 3 <= Rom.End)
    ensures r.Ok? ==> 0 <= a - Rom.Base && a - Rom.Base + 3 < |rom.data|
    ensures r.Ok? ==> var o := a - Rom.Base;
      r.value == Int32(BigEndian4(rom.data[o], rom.data[o + 1], rom.data[o + 2], rom.data[o + 3]))
  {
    var o :- Rom.Offset(a);
    var b0 :- Rom.Load(rom, o);
    var b1 :- Rom.Load(rom, o + 1);
    var b2 :- Rom.Load(rom, o + 2);
    var b3 :- Rom.Load(rom, o + 3);
    Ok(Int32(BigEndian4(b0, b1, b2, b3)))
  }

  /** The corrected ROM `read32` is the four-byte composition of ROM's `read8`,
      where the code as written never returns a value. */
  lemma RomRead32IsComposition(rom: Rom.Rom, a: int)
    requires Rom.Valid(rom) && Rom.Base <= a && a + 3 <= Rom.End
    ensures RomRead32(rom, a) == Read32Of(x => Rom.Read8(rom, x), a)
    ensures RomRead32(rom, a).Ok? && Rom.Read32(rom, a) == Err(Unsupported)
  {
    var o, d := a - Rom.Base, rom.data;
    var read8 := x => Rom.Read8(rom, x);
    assert read8(a) == Ok(d[o]) && read8(a + 1) == Ok(d[o + 1]);
    assert read8(a + 2) == Ok(d[o + 2]) && read8(a + 3) == Ok(d[o + 3]);
    Read32OfBytes(read8, a, d[o], d[o + 1], d[o + 2], d[o + 3]);
  }

  /** `read16` on the bus composing the two bytes at `a` and `a + 1`. */
  function BusRead16(bus: Bus, a: int): (r: Result<int>)
    ensures a % 2 != 0 ==> r == Err(Misaligned(a))
    ensures r.Ok? ==> 0 <= r.value <= 0xFFFF
  {
    var _ :- CheckAlignment(a, 2);
    Region.DefaultRead16(x => Read8(bus, x), a)
  }

  /** `read32` on the bus composing the four bytes at `a` ... `a + 3`. */
  function BusRead32(bus: Bus, a: int): (r: Result<int>)
    ensures a % 4 != 0 ==> r == Err(Misaligned(a))
    ensures r.Ok? ==> IsInt32(r.value)
  {
    var _ :- CheckAlignment(a, 4);
    Read32Of(x => Read8(bus, x), a)
  }

  /** Four successful byte reads on the bus determine the corrected `read32`. */
  lemma BusRead32OfBytes(bus: Bus, a: int, b0: Byte, b1: Byte, b2: Byte, b3: Byte)
    requires a % 4 == 0 && Read8(bus, a) == Ok(b0) && Read8(bus, a + 1) == Ok(b1)
    requires Read8(bus, a + 2) == Ok(b2) && Read8(bus, a + 3) == Ok(b3)
    ensures BusRead32(bus, a) == Ok(Int32(BigEndian4(b0, b1, b2, b3)))
  {
    Read32OfBytes(x => Read8(bus, x), a, b0, b1, b2, b3);
  }

  /** A bus write in which an overlay write counts as a ROM write and is dropped. */
  function BusWrite(bus: Bus, w: Width, a: int, v: int): (r: Effect<Bus>)
    ensures OverlayApplies(bus, a) ==> r == Done(bus)
    ensures !OverlayApplies(bus, a) ==> r == WriteAt(bus, w, a, v)
  {
    if OverlayApplies(bus, a) then Done(bus) else WriteAt(bus, w, a, v)
  }

  /** With the overlay write dropped, the only faults a write on a valid bus
      can report are an unmapped address and a RAM access running past RAM's
      end: neither `ReadOnly` nor `Unsupported` ever reaches the caller. */
  lemma BusWriteFaults(bus: Bus, w: Width, a: int, v: int)
    requires Valid(bus)
    ensures var r := BusWrite(bus, w, a, v);
      && Valid(r.state) && SameLayout(bus, r.state)
      && (r.Faulted? ==> r.fault == Unmapped(a) || r.fault == IndexOutOfBounds)
  {
    var t := Resolve(bus, a);
    if !OverlayApplies(bus, a) && t.Ok? && t.value.Mapped? && bus.regions[t.value.index].RamRegion? {
      var ram := bus.regions[t.value.index].ram;
      assert Ram.Valid(ram) && Region.Contains(Ram.Base, Ram.End, a);
    }
  }

  function BusWrite16(bus: Bus, a: int, v: int): (r: Effect<Bus>)
    ensures a % 2 != 0 ==> r == Faulted(bus, Misaligned(a))
  {
    match CheckAlignment(a, 2)
    case Err(f) => Faulted(bus, f)
    case Ok(_) => BusWrite(bus, W16, a, v)
  }

  function BusWrite32(bus: Bus, a: int, v: int): (r: Effect<Bus>)
    ensures a % 4 != 0 ==> r == Faulted(bus, Misaligned(a))
  {
    match CheckAlignment(a, 4)
    case Err(f) => Faulted(bus, f)
    case Ok(_) => BusWrite(bus, W32, a, v)
  }

  /** A bus write that resolves to RAM installs the RAM's own write, and the
      address still resolves to the same, still valid, RAM region. */
  lemma WriteToRam(bus: Bus, w: Width, a: int, v: int)
    requires Valid(bus) && ResolvesToRam(bus, a)
    ensures var i := Resolve(bus, a).value.index;
      var after := WriteAt(bus, w, a, v).state;
      && Valid(after) && Resolve(after, a) == Resolve(bus, a) && ResolvesToRam(after, a)
      && after.regions[i] == RegionWrite(bus.regions[i], w, a, v).state
  {
    ResolveDependsOnLayout(bus, WriteAt(bus, w, a, v).state, a);
  }

  /** Two byte readers that agree on the four bytes give the same long word. */
  lemma Read32OfAgree(f: int -> Result<int>, g: int -> Result<int>, a: int)
    requires f(a) == g(a) && f(a + 1) == g(a + 1) && f(a + 2) == g(a + 2) && f(a + 3) == g(a + 3)
    ensures Read32Of(f, a) == Read32Of(g, a)
  {
  }

  /** Two byte readers that agree on the two bytes give the same word. */
  lemma Read16Agree(f: int -> Result<int>, g: int -> Result<int>, a: int)
    requires f(a) == g(a) && f(a + 1) == g(a + 1)
    ensures Region.DefaultRead16(f, a) == Region.DefaultRead16(g, a)
  {
  }

  /** Where a word lies inside the RAM an address resolves to, the corrected
      bus `read16` is that RAM's composed `read16`. */
  lemma BusRead16IsRam(bus: Bus, a: int)
    requires ResolvesToRam(bus, a) && a % 2 == 0 && a + 1 <= Ram.End
    ensures var ram := bus.regions[Resolve(bus, a).value.index].ram;
      BusRead16(bus, a) == Region.DefaultRead16(x => Ram.Read8(ram, x), a)
  {
    var ram := bus.regions[Resolve(bus, a).value.index].ram;
    ReadsRam(bus, a);
    Read16Agree(x => Read8(bus, x), x => Ram.Read8(ram, x), a);
  }

  /** Where a long word lies inside the RAM an address resolves to, the
      corrected bus `read32` is that RAM's composed `read32`. */
  lemma BusRead32IsRam(bus: Bus, a: int)
    requires ResolvesToRam(bus, a) && a % 4 == 0 && a + 3 <= Ram.End
    ensures var ram := bus.regions[Resolve(bus, a).value.index].ram;
      BusRead32(bus, a) == Read32Of(x => Ram.Read8(ram, x), a)
  {
    var ram := bus.regions[Resolve(bus, a).value.index].ram;
    ReadsRam(bus, a);
    Read32OfAgree(x => Read8(bus, x), x => Ram.Read8(ram, x), a);
  }

  /** RAM's own `write16` read back through the composed two-byte `read16`. */
  lemma RamComposedAfterWrite16(ram: Ram.Ram, a: int, v: int)
    requires Ram.Valid(ram) && 0 <= a < Ram.End
    ensures var written := Ram.Write16(ram, a, v).state;
      Region.DefaultRead16(x => Ram.Read8(written, x), a) == Ok(Lo16(v))
  {
    Ram.Read16AfterWrite16(ram, a, v);
    Ram.Read16MatchesDefault(Ram.Write16(ram, a, v).state, a);
  }

  /** RAM's own `write32` read back through the composed four-byte `read32`. */
  lemma RamComposedAfterWrite32(ram: Ram.Ram, a: int, v: int)
    requires Ram.Valid(ram) && 0 <= a && a + 3 <= Ram.End
    ensures var written := Ram.Write32(ram, a, v).state;
      Read32Of(x => Ram.Read8(written, x), a) == Ok(Int32(v))
  {
    Ram.Read32AfterWrite32(ram, a, v);
    RamRead32IsComposition(Ram.Write32(ram, a, v).state, a);
  }

  /** A word written to RAM through the corrected bus reads back as `v & 0xFFFF`. */
  lemma BusRead16AfterWrite16(bus: Bus, a: int, v: int)
    requires Valid(bus) && ResolvesToRam(bus, a) && a % 2 == 0
    ensures BusWrite16(bus, a, v).Done?
    ensures BusRead16(BusWrite16(bus, a, v).state, a) == Ok(Lo16(v))
  {
    var i := Resolve(bus, a).value.index;
    var ram := bus.regions[i].ram;
    assert a < Ram.End;
    assert BusWrite16(bus, a, v) == WriteAt(bus, W16, a, v);
    WriteToRam(bus, W16, a, v);
    var after := WriteAt(bus, W16, a, v).state;
    assert after.regions[i].ram == Ram.Write16(ram, a, v).state;
    BusRead16IsRam(after, a);
    RamComposedAfterWrite16(ram, a, v);
  }

  /** A long word written to RAM through the corrected bus reads back as the
      Java `int` holding its low 32 bits. */
  lemma BusRead32AfterWrite32(bus: Bus, a: int, v: int)
    requires Valid(bus) && ResolvesToRam(bus, a) && a % 4 == 0
    ensures BusWrite32(bus, a, v).Done?
    ensures BusRead32(BusWrite32(bus, a, v).state, a) == Ok(Int32(v))
  {
    var i := Resolve(bus, a).value.index;
    var ram := bus.regions[i].ram;
    assert a + 3 <= Ram.End;
    assert BusWrite32(bus, a, v) == WriteAt(bus, W32, a, v);
    WriteToRam(bus, W32, a, v);
    var after := WriteAt(bus, W32, a, v).state;
    assert after.regions[i].ram == Ram.Write32(ram, a, v).state;
    BusRead32IsRam(after, a);
    RamComposedAfterWrite32(ram, a, v);
  }

  /** Under the overlay the corrected `read32` at 0 is the first long word of
      the ROM image, which is where the 68000 takes its reset stack pointer. */
  lemma ResetVectorFromRom(bus: Bus)
    requires Valid(bus) && bus.overlay && bus.romTarget.Some?
    ensures var d := bus.romTarget.value.data;
      BusRead32(bus, 0) == Ok(Int32(BigEndian4(d[0], d[1], d[2], d[3])))
  {
    var d := bus.romTarget.value.data;
    OverlayReadsRom(bus, 0);
    OverlayReadsRom(bus, 1);
    OverlayReadsRom(bus, 2);
    OverlayReadsRom(bus, 3);
    BusRead32OfBytes(bus, 0, d[0], d[1], d[2], d[3]);
  }

  /** On the booted machine, after `write16(0, 0x1234)` the bus as written
      reads 0x12 at 0. */
  lemma BusReadAsWrittenDiffers()
    ensures Rom.New(ZeroImage()).Ok?
    ensures var booted := SetRomOverlayActive(MacPlus(), false);
      && Write16(booted, 0, 0x1234).Done?
      && Read16(Write16(booted, 0, 0x1234).state, 0) == Ok(0x12)
  {
    var booted := SetRomOverlayActive(MacPlus(), false);
    assert booted.regions[0].RamRegion? && Contains(booted.regions[0], 0);
    BusProperties.Read16AfterWrite16(booted, 0, 0x1234);
    DivModUnique(0x1234, 0x100, 0x12, 0x34);
    DivModUnique(0x12, 0x100, 0, 0x12);
  }

  /** On the booted machine, after `write16(0, 0x1234)` the corrected bus reads 0x1234 at 0. */
  lemma CorrectedBusReadSample()
    ensures Rom.New(ZeroImage()).Ok?
    ensures var booted := SetRomOverlayActive(MacPlus(), false);
      && BusWrite16(booted, 0, 0x1234).Done?
      && BusRead16(BusWrite16(booted, 0, 0x1234).state, 0) == Ok(0x1234)
  {
    var booted := SetRomOverlayActive(MacPlus(), false);
    assert booted.regions[0].RamRegion? && Contains(booted.regions[0], 0);
    BusRead16AfterWrite16(booted, 0, 0x1234);
    DivModUnique(0x1234, 0x1_0000, 0, 0x1234);
  }

  /** During boot a write to address 0 escapes the bus as written, and is
      dropped by the corrected bus. */
  lemma OverlayWriteAsWrittenDiffers()
    ensures Rom.New(ZeroImage()).Ok?
    ensures Write8(MacPlus(), 0, 0x42) == Faulted(MacPlus(), Unsupported)
    ensures BusWrite(MacPlus(), W8, 0, 0x42) == Done(MacPlus())
  {
  }
}
