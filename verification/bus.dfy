/** The address bus (`Bus`): an ordered list of regions, the reset-time ROM
    overlay flag and the ROM the overlay mirrors.

    Resolution applies the overlay first, then picks the first registered
    region whose range contains the address. The 16/32-bit accesses check
    alignment before resolving. A `ROMWriteException` from a region is caught
    and dropped; every other fault reaches the caller.
 */
module Bus {
  import opened Bytes
  import opened Faults
  import Region
  import Ram
  import Rom

  datatype Option<+T> = None | Some(value: T)

  /** The concrete regions that can be registered. */
  datatype MemoryRegion = RamRegion(ram: Ram.Ram) | RomRegion(rom: Rom.Rom)

  predicate RegionValid(r: MemoryRegion) {
    match r
    case RamRegion(ram) => Ram.Valid(ram)
    case RomRegion(rom) => Rom.Valid(rom)
  }

  function BaseAddress(r: MemoryRegion): int {
    if r.RamRegion? then Ram.Base else Rom.Base
  }

  function EndAddress(r: MemoryRegion): int {
    if r.RamRegion? then Ram.End else Rom.End
  }

  predicate Contains(r: MemoryRegion, a: int) {
    Region.Contains(BaseAddress(r), EndAddress(r), a)
  }

  /** The access widths of the write methods. */
  datatype Width = W8 | W16 | W32

  function RegionRead8(r: MemoryRegion, a: int): (res: Result<int>)
    ensures res.Ok? ==> 0 <= res.value <= 0xFF
  {
    match r
    case RamRegion(ram) => Ram.Read8(ram, a)
    case RomRegion(rom) => Rom.Read8(rom, a)
  }

  function OfRam(e: Effect<Ram.Ram>): Effect<MemoryRegion> {
    match e
    case Done(s) => Done(RamRegion(s))
    case Faulted(s, f) => Faulted(RamRegion(s), f)
  }

  /** The region's own `write8`/`write16`/`write32`. */
  function RegionWrite(r: MemoryRegion, w: Width, a: int, v: int): (e: Effect<MemoryRegion>)
    ensures e.state.RamRegion? == r.RamRegion?
    ensures RegionValid(r) ==> RegionValid(e.state)
    ensures r.RomRegion? ==> e == Faulted(r, ReadOnly)
  {
    match r
    case RamRegion(ram) =>
      OfRam(match w
            case W8 => Ram.Write8(ram, a, v)
            case W16 => Ram.Write16(ram, a, v)
            case W32 => Ram.Write32(ram, a, v))
    case RomRegion(rom) =>
      var e := match w
               case W8 => Rom.Write8(rom, a, v)
               case W16 => Rom.Write16(rom, a, v)
               case W32 => Rom.Write32(rom, a, v);
      Faulted(RomRegion(e.state), e.fault)
  }

  datatype Bus = Bus(regions: seq<MemoryRegion>, overlay: bool, romTarget: Option<Rom.Rom>)

  /** Every region and the overlay target were built by their constructors,
      and the overlay target is a ROM that was registered. */
  predicate Valid(bus: Bus) {
    && (forall i :: 0 <= i < |bus.regions| ==> RegionValid(bus.regions[i]))
    && (bus.romTarget.Some? ==> Rom.Valid(bus.romTarget.value) && RomRegion(bus.romTarget.value) in bus.regions)
  }

  /** A fresh bus: no regions, overlay active, no ROM to mirror. */
  function New(): (bus: Bus)
    ensures Valid(bus)
    ensures bus.regions == [] && bus.overlay && bus.romTarget.None?
  {
    Bus([], true, None)
  }

  /** `register(region)`: appends the region; a ROM also becomes the overlay
      target, replacing any earlier one. */
  function Register(bus: Bus, r: MemoryRegion): (b: Bus)
    ensures Valid(bus) && RegionValid(r) ==> Valid(b)
    ensures |b.regions| == |bus.regions| + 1 && b.regions[|bus.regions|] == r
    ensures forall i :: 0 <= i < |bus.regions| ==> b.regions[i] == bus.regions[i]
    ensures b.overlay == bus.overlay
    ensures r.RomRegion? ==> b.romTarget == Some(r.rom)
    ensures r.RamRegion? ==> b.romTarget == bus.romTarget
  {
    Bus(bus.regions + [r], bus.overlay, if r.RomRegion? then Some(r.rom) else bus.romTarget)
  }

  function SetRomOverlayActive(bus: Bus, active: bool): Bus {
    bus.(overlay := active)
  }

  function IsRomOverlayActive(bus: Bus): bool {
    bus.overlay
  }

  /** The flag reads back as set, and setting it touches nothing else. */
  lemma OverlayFlag(bus: Bus, active: bool)
    ensures IsRomOverlayActive(SetRomOverlayActive(bus, active)) == active
    ensures SetRomOverlayActive(bus, active).regions == bus.regions
    ensures SetRomOverlayActive(bus, active).romTarget == bus.romTarget
    ensures IsRomOverlayActive(New())
  {
  }

  /** The overlay takes the access: the flag is set, a ROM is registered, and
      the address is below `ROM.SIZE` (negative addresses included). */
  predicate OverlayApplies(bus: Bus, a: int) {
    bus.overlay && bus.romTarget.Some? && a < Rom.Size
  }

  /** The index of the first region in registration order that contains `a`. */
  function FirstContaining(regions: seq<MemoryRegion>, a: int): (r: Option<nat>)
    ensures r.Some? ==> r.value < |regions| && Contains(regions[r.value], a)
    ensures r.Some? ==> forall j :: 0 <= j < r.value ==> !Contains(regions[j], a)
    ensures r.None? ==> forall j :: 0 <= j < |regions| ==> !Contains(regions[j], a)
  {
    if |regions| == 0 then None
    else if Contains(regions[0], a) then Some(0)
    else
      match FirstContaining(regions[1..], a)
      case None => None
      case Some(i) => Some(i + 1)
  }

  /** Where `resolve` sends an access: a registered region by index, or an
      overlay adapter over the ROM holding the translated address. */
  datatype Target = Mapped(index: nat) | Overlaid(rom: Rom.Rom, translated: int)

  /** `resolve(a)` */
  function Resolve(bus: Bus, a: int): (r: Result<Target>)
    ensures OverlayApplies(bus, a) ==> r == Ok(Overlaid(bus.romTarget.value, Rom.Base + a))
    ensures r.Ok? && r.value.Mapped? ==>
      && !OverlayApplies(bus, a)
      && r.value.index < |bus.regions|
      && Contains(bus.regions[r.value.index], a)
      && forall j :: 0 <= j < r.value.index ==> !Contains(bus.regions[j], a)
    ensures r.Err? <==> !OverlayApplies(bus, a) && forall j :: 0 <= j < |bus.regions| ==> !Contains(bus.regions[j], a)
    ensures r.Err? ==> r.fault == Unmapped(a)
  {
    if OverlayApplies(bus, a) then Ok(Overlaid(bus.romTarget.value, Rom.Base + a))
    else
      match FirstContaining(bus.regions, a)
      case Some(i) => Ok(Mapped(i))
      case None => Err(Unmapped(a))
  }

  /** `checkAlignment(a, size)`: `a & (size - 1)` must be zero. For sizes 2
      and 4 that is `a % size == 0`, negative `a` too (`AlignmentIsMask`). */
  function CheckAlignment(a: int, size: int): (r: Result<int>)
    requires size == 2 || size == 4
    ensures r.Err? <==> a % size != 0
    ensures r.Err? ==> r.fault == Misaligned(a)
  {
    if a % size != 0 then Err(Misaligned(a)) else Ok(a)
  }

  /** The bits of a Java `int` as an unsigned 32-bit vector. */
  function IntBits(a: int): bv32 {
    (a % 0x1_0000_0000) as bv32
  }

  /** The mask test `a & (size - 1) == 0` on the `int`'s bits is the
      divisibility test `CheckAlignment` uses, negative `a` included. */
  lemma AlignmentIsMask(a: int, size: int)
    requires size == 2 || size == 4
    ensures (IntBits(a) & (size - 1) as bv32 == 0) <==> CheckAlignment(a, size).Ok?
  {
    var x := a % 0x1_0000_0000;
    ModOfUnsigned(a, size);
    if size == 2 {
      LowBit(x);
    } else {
      LowBit(x);
      SecondBit(x);
      LowTwoBits(x as bv32);
      Mod4Bits(x);
    }
  }

  /** Reducing modulo 2^32 keeps the residue modulo 2 and 4. */
  lemma ModOfUnsigned(a: int, size: int)
    requires size == 2 || size == 4
    ensures (a % 0x1_0000_0000) % size == a % size
  {
    var w, q := a % 0x1_0000_0000, a / 0x1_0000_0000;
    var k := 0x1_0000_0000 / size;
    assert a == size * (k * q + w / size) + w % size;
    DivModUnique(a, size, k * q + w / size, w % size);
  }

  lemma LowBit(x: int)
    requires 0 <= x < 0x1_0000_0000
    ensures ((x as bv32) & 1 == 0) <==> x % 2 == 0
  {
  }

  lemma SecondBit(x: int)
    requires 0 <= x < 0x1_0000_0000
    ensures ((x as bv32) & 2 == 0) <==> (x / 2) % 2 == 0
  {
  }

  lemma LowTwoBits(w: bv32)
    ensures (w & 3 == 0) <==> (w & 1 == 0 && w & 2 == 0)
  {
  }

  lemma Mod4Bits(x: int)
    ensures x % 4 == 0 <==> (x % 2 == 0 && (x / 2) % 2 == 0)
  {
    var h := x / 2;
    DivModUnique(x, 4, h / 2, 2 * (h % 2) + x % 2);
  }

  /** The overlay adapter's `read8`: ROM's `read8` at the translated address,
      whatever address it is handed. */
  function OverlayRead8(rom: Rom.Rom, translated: int): (r: Result<int>)
    ensures Rom.Valid(rom) ==> (r.Ok? <==> Rom.Base <= translated <= Rom.End)
    ensures r.Ok? ==> 0 <= translated - Rom.Base < |rom.data| && r.value == rom.data[translated - Rom.Base]
  {
    Rom.Read8(rom, translated)
  }

  /** The overlay adapter's `write8` throws `UnsupportedOperationException`. */
  function OverlayWrite8(rom: Rom.Rom, a: int, v: int): Effect<Rom.Rom> {
    Faulted(rom, Unsupported)
  }

  /** The adapter inherits `write16`/`write32` from the interface; both start
      with a `write8`, which throws, so every width fails the same way. */
  function OverlayWrite(rom: Rom.Rom, w: Width, a: int, v: int): (e: Effect<Rom.Rom>)
    ensures e == Faulted(rom, Unsupported)
  {
    match w
    case W8 => OverlayWrite8(rom, a, v)
    case W16 => Region.DefaultWrite16(OverlayWrite8, rom, a, v)
    case W32 => Region.DefaultWrite32(OverlayWrite8, rom, a, v)
  }

  function TargetRead8(bus: Bus, t: Target, a: int): (r: Result<int>)
    requires t.Mapped? ==> t.index < |bus.regions|
    ensures r.Ok? ==> 0 <= r.value <= 0xFF
  {
    match t
    case Mapped(i) => RegionRead8(bus.regions[i], a)
    case Overlaid(rom, translated) => OverlayRead8(rom, translated)
  }

  /** `read8(a)` */
  function Read8(bus: Bus, a: int): (r: Result<int>)
    ensures Resolve(bus, a).Err? ==> r == Err(Unmapped(a))
    ensures r.Ok? ==> 0 <= r.value <= 0xFF
  {
    var t :- Resolve(bus, a);
    TargetRead8(bus, t, a)
  }

  /** `read16(a)`, as written: after the alignment check it returns the
      resolved region's `read8(a)`, a single byte. */
  function Read16(bus: Bus, a: int): (r: Result<int>)
    ensures a % 2 != 0 ==> r == Err(Misaligned(a))
    ensures a % 2 == 0 ==> r == Read8(bus, a)
  {
    var _ :- CheckAlignment(a, 2);
    var t :- Resolve(bus, a);
    TargetRead8(bus, t, a)
  }

  /** `read32(a)`, as written: after the alignment check it returns the
      resolved region's `read8(a)`, a single byte. */
  function Read32(bus: Bus, a: int): (r: Result<int>)
    ensures a % 4 != 0 ==> r == Err(Misaligned(a))
    ensures a % 4 == 0 ==> r == Read8(bus, a)
  {
    var _ :- CheckAlignment(a, 4);
    var t :- Resolve(bus, a);
    TargetRead8(bus, t, a)
  }

  /** The bus after region `i` has been left in state `e.state`, with the same outcome. */
  function Install(bus: Bus, i: nat, e: Effect<MemoryRegion>): (r: Effect<Bus>)
    requires i < |bus.regions|
  {
    var b := bus.(regions := bus.regions[i := e.state]);
    match e
    case Done(_) => Done(b)
    case Faulted(_, f) => Faulted(b, f)
  }

  /** `catch (ROM.ROMWriteException e) {}`: a `ReadOnly` fault becomes a
      normal return; every other fault passes through. */
  function CatchRomWrite(e: Effect<Bus>): (r: Effect<Bus>)
    ensures r.state == e.state
    ensures r.Faulted? <==> e.Faulted? && e.fault != ReadOnly
    ensures r.Faulted? ==> r.fault == e.fault
  {
    if e.Faulted? && e.fault == ReadOnly then Done(e.state) else e
  }

  /** Layout: what resolution depends on. Writes never change it. */
  predicate SameLayout(b1: Bus, b2: Bus) {
    && b1.overlay == b2.overlay
    && b1.romTarget == b2.romTarget
    && |b1.regions| == |b2.regions|
    && forall i :: 0 <= i < |b1.regions| ==> b1.regions[i].RamRegion? == b2.regions[i].RamRegion?
  }

  /** Replacing a region by a valid one of the same kind keeps the bus valid,
      provided a ROM region is left as it was: the overlay target stays registered. */
  lemma {:induction false} ReplaceKeepsValid(bus: Bus, i: nat, r: MemoryRegion)
    requires Valid(bus) && i < |bus.regions| && RegionValid(r)
    requires bus.regions[i].RomRegion? ==> r == bus.regions[i]
    ensures Valid(bus.(regions := bus.regions[i := r]))
  {
    if bus.romTarget.Some? {
      var rom := RomRegion(bus.romTarget.value);
      var j :| 0 <= j < |bus.regions| && bus.regions[j] == rom;
      assert bus.regions[i := r][j] == rom;
    }
  }

  /** `ReplaceKeepsValid` for a bus that may not be valid to begin with. */
  lemma ReplaceKeepsValidIf(bus: Bus, i: nat, r: MemoryRegion)
    requires i < |bus.regions|
    requires RegionValid(bus.regions[i]) ==> RegionValid(r)
    requires bus.regions[i].RomRegion? ==> r == bus.regions[i]
    ensures Valid(bus) ==> Valid(bus.(regions := bus.regions[i := r]))
  {
    if Valid(bus) {
      ReplaceKeepsValid(bus, i, r);
    }
  }

  /** The shared body of `write8`, `write16` and `write32` after the alignment
      check: resolve, delegate to the target, drop a `ReadOnly` fault. */
  function WriteAt(bus: Bus, w: Width, a: int, v: int): (r: Effect<Bus>)
    ensures Valid(bus) ==> Valid(r.state)
    ensures SameLayout(bus, r.state)
    ensures Resolve(bus, a).Err? ==> r == Faulted(bus, Unmapped(a))
    ensures OverlayApplies(bus, a) ==> r == Faulted(bus, Unsupported)
    ensures Resolve(bus, a).Ok? && Resolve(bus, a).value.Mapped? ==>
      var i := Resolve(bus, a).value.index;
      && r.state.regions == bus.regions[i := RegionWrite(bus.regions[i], w, a, v).state]
      && (r.Faulted? <==> RegionWrite(bus.regions[i], w, a, v).Faulted? && bus.regions[i].RamRegion?)
    ensures Resolve(bus, a).Ok? && Resolve(bus, a).value.Mapped? && bus.regions[Resolve(bus, a).value.index].RomRegion? ==>
      r == Done(bus)
  {
    match Resolve(bus, a)
    case Err(f) => Faulted(bus, f)
    case Ok(Overlaid(rom, _)) =>
      var e := OverlayWrite(rom, w, a, v);
      CatchRomWrite(Faulted(bus, e.fault))
    case Ok(Mapped(i)) =>
      var e := RegionWrite(bus.regions[i], w, a, v);
      assert bus.regions[i].RomRegion? ==> bus.regions[i := e.state] == bus.regions;
      ReplaceKeepsValidIf(bus, i, e.state);
      CatchRomWrite(Install(bus, i, e))
  }

  /** `write8(a, v)` */
  function Write8(bus: Bus, a: int, v: int): Effect<Bus> {
    WriteAt(bus, W8, a, v)
  }

  /** `write16(a, v)`: the alignment check comes before resolution. */
  function Write16(bus: Bus, a: int, v: int): (r: Effect<Bus>)
    ensures a % 2 != 0 ==> r == Faulted(bus, Misaligned(a))
    ensures a % 2 == 0 ==> r == WriteAt(bus, W16, a, v)
  {
    match CheckAlignment(a, 2)
    case Err(f) => Faulted(bus, f)
    case Ok(_) => WriteAt(bus, W16, a, v)
  }

  /** `write32(a, v)`: the alignment check comes before resolution. */
  function Write32(bus: Bus, a: int, v: int): (r: Effect<Bus>)
    ensures a % 4 != 0 ==> r == Faulted(bus, Misaligned(a))
    ensures a % 4 == 0 ==> r == WriteAt(bus, W32, a, v)
  {
    match CheckAlignment(a, 4)
    case Err(f) => Faulted(bus, f)
    case Ok(_) => WriteAt(bus, W32, a, v)
  }
}
