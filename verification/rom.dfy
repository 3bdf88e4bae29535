/** The 128 KiB boot ROM (`ROM`), mapped at 0x400000 - 0x41FFFF. Read-only:
    every write faults with `ReadOnly` and changes nothing. */
module Rom {
  import opened Bytes
  import opened Faults
  import Region
  import Units

  const Base: int := 0x40_0000
  const Size: int := 0x2_0000
  const End: int := Base + Size - 1

  /** `SIZE = 128 * Unit.KB.the()`, so `END` is 0x41FFFF. */
  lemma Constants()
    ensures Size == 128 * Units.The(Units.KB)
    ensures Size == 131_072
    ensures End == 0x41_FFFF
  {
    Units.UnitValues();
  }

  datatype Rom = Rom(data: seq<Byte>)

  /** The constructor only ever admits an image of exactly `SIZE` bytes. */
  predicate Valid(rom: Rom) {
    |rom.data| == Size
  }

  /** `new ROM(image)`: rejects an image of the wrong length, otherwise keeps
      its own copy of the bytes. Being a value, the copy cannot be changed
      through the caller's buffer afterwards. */
  function New(image: seq<Byte>): (r: Result<Rom>)
    ensures r.Ok? <==> |image| == Size
    ensures r.Err? ==> r.fault == IllegalArgument
    ensures r.Ok? ==> Valid(r.value) && forall i :: 0 <= i < Size ==> r.value.data[i] == image[i]
  {
    if |image| != Size then Err(IllegalArgument) else Ok(Rom(image))
  }

  /** ROM's `offset_to_within`: the same bounds check and subtraction as the
      interface default, with ROM's bounds. */
  function Offset(a: int): (r: Result<int>)
    ensures r.Ok? <==> Base <= a <= End
    ensures r.Ok? ==> r.value == a - Base && r.value < Size
    ensures r.Err? ==> r.fault == Unsupported
  {
    Region.OffsetToWithin(Base, End, a)
  }

  /** `data[o] & 0xFF` */
  function Load(rom: Rom, o: int): Result<Byte> {
    if 0 <= o < |rom.data| then Ok(rom.data[o]) else Err(IndexOutOfBounds)
  }

  /** `readbit`: the lowest bit of the addressed byte. */
  function ReadBit(rom: Rom, a: int): (r: Result<int>)
    ensures !Region.Contains(Base, End, a) ==> r == Err(Unsupported)
    ensures Valid(rom) ==> (r.Ok? <==> Region.Contains(Base, End, a))
    ensures r.Ok? ==> (r.value == 0 || r.value == 1)
    ensures r.Ok? ==> 0 <= a - Base < |rom.data| && (rom.data[a - Base] - r.value) % 2 == 0
  {
    var o :- Offset(a);
    var b :- Load(rom, o);
    Ok(b % 2)
  }

  function Read8(rom: Rom, a: int): (r: Result<int>)
    ensures !Region.Contains(Base, End, a) ==> r == Err(Unsupported)
    ensures Valid(rom) ==> (r.Ok? <==> Region.Contains(Base, End, a))
    ensures r.Ok? ==> 0 <= a - Base < |rom.data| && r.value == rom.data[a - Base]
  {
    var o :- Offset(a);
    var b :- Load(rom, o);
    Ok(b)
  }

  /** ROM's own `read16`: both bytes straight from the image. At `END` the
      second index is past the image. */
  function Read16(rom: Rom, a: int): (r: Result<int>)
    ensures !Region.Contains(Base, End, a) ==> r == Err(Unsupported)
    ensures Valid(rom) && Region.Contains(Base, End, a) ==> (r.Ok? <==> a < End)
    ensures Valid(rom) && a == End ==> r == Err(IndexOutOfBounds)
    ensures r.Ok? ==> 0 <= r.value <= 0xFFFF
    ensures r.Ok? ==> 0 <= a - Base && a - Base + 1 < |rom.data|
    ensures r.Ok? ==> r.value / 0x100 == rom.data[a - Base] && r.value % 0x100 == rom.data[a - Base + 1]
  {
    var o :- Offset(a);
    var hi :- Load(rom, o);
    var lo :- Load(rom, o + 1);
    Ok(hi * 0x100 + lo)
  }

  /** ROM's own `read32`, as written: translates `a` to an offset and passes
      that offset to the interface's default `read32`, whose `read16` calls
      translate it a second time. An offset is below `BASE`, so that second
      bounds check always fails and no long word is ever returned. */
  function Read32(rom: Rom, a: int): (r: Result<int>)
    ensures r == Err(Unsupported)
  {
    var o :- Offset(a);
    Region.DefaultRead32(x => Read16(rom, x), o)
  }

  /** `read` is not implemented. */
  function Read(rom: Rom, a: int): (r: Result<int>)
    ensures r.Err? && r.fault == Unsupported
  {
    Err(Unsupported)
  }

  /** Every write (`writebit`, `write8`, `write16`, `write32`, `write`) throws
      `ROMWriteException` before touching the image. */
  function WriteFault(rom: Rom): Effect<Rom> {
    Faulted(rom, ReadOnly)
  }

  function WriteBit(rom: Rom, a: int, bit: int): Effect<Rom> {
    WriteFault(rom)
  }

  function Write8(rom: Rom, a: int, v: int): Effect<Rom> {
    WriteFault(rom)
  }

  function Write16(rom: Rom, a: int, v: int): Effect<Rom> {
    WriteFault(rom)
  }

  function Write32(rom: Rom, a: int, v: int): Effect<Rom> {
    WriteFault(rom)
  }

  function Write(rom: Rom, a: int, v: int): Effect<Rom> {
    WriteFault(rom)
  }

  /** No write of any width reaches the image: each faults with `ReadOnly`
      and every address reads as it did before. */
  lemma WritesLeaveImage(rom: Rom, a: int, v: int, b: int)
    ensures WriteBit(rom, a, v) == Faulted(rom, ReadOnly) && Write8(rom, a, v) == Faulted(rom, ReadOnly)
    ensures Write16(rom, a, v) == Faulted(rom, ReadOnly) && Write32(rom, a, v) == Faulted(rom, ReadOnly)
    ensures Write(rom, a, v) == Faulted(rom, ReadOnly)
    ensures Read8(Write8(rom, a, v).state, b) == Read8(rom, b)
    ensures Read16(Write16(rom, a, v).state, b) == Read16(rom, b)
  {
  }

  /** The image byte at `a - BASE` is what `read8` returns, for every address of the region. */
  lemma Read8OfImage(image: seq<Byte>, a: int)
    requires |image| == Size && Region.Contains(Base, End, a)
    ensures New(image).Ok? && Read8(New(image).value, a) == Ok(image[a - Base])
  {
  }

  /** ROM's `read16` override agrees with the interface's two-byte default
      wherever both bytes lie in the region. */
  lemma Read16MatchesDefault(rom: Rom, a: int)
    requires Valid(rom) && Region.Contains(Base, End, a) && a < End
    ensures Read16(rom, a) == Region.DefaultRead16(x => Read8(rom, x), a)
  {
    var d := Region.DefaultRead16(x => Read8(rom, x), a);
    assert d.value / 0x100 == rom.data[a - Base];
  }
}
