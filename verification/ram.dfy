/** The 1 MiB main memory (`RAM`), mapped at 0x000000 - 0x0FFFFF.

    The backing array is a sequence of bytes; indexing it outside its length
    faults with `IndexOutOfBounds`, as a Java array does.
 */
module Ram {
  import opened Bytes
  import opened Faults
  import Region
  import Units

  const Base: int := 0x00_0000
  const Size: int := 0x10_0000
  const End: int := Base + Size - 1

  /** `SIZE = 1 * Unit.MB.the()`, so `END` is 0x0FFFFF. */
  lemma Constants()
    ensures Size == 1 * Units.The(Units.MB)
    ensures End == 0x0F_FFFF
  {
    Units.UnitValues();
  }

  datatype Ram = Ram(data: seq<Byte>)

  /** The constructor allocates exactly `SIZE` bytes and nothing resizes them. */
  predicate Valid(ram: Ram) {
    |ram.data| == Size
  }

  /** `after` holds `bytes` from offset `o` on and agrees with `before` everywhere else. */
  predicate Stored(before: Ram, after: Ram, o: int, bytes: seq<Byte>) {
    && |after.data| == |before.data|
    && 0 <= o && o + |bytes| <= |before.data|
    && (forall k :: 0 <= k < |bytes| ==> after.data[o + k] == bytes[k])
    && (forall i :: 0 <= i < |before.data| && !(o <= i < o + |bytes|) ==> after.data[i] == before.data[i])
  }

  /** `new RAM()`: a zero-filled array of `SIZE` bytes. */
  function New(): (ram: Ram)
    ensures Valid(ram)
    ensures forall i :: 0 <= i < |ram.data| ==> ram.data[i] == 0
  {
    Ram(seq(Size, _ => 0))
  }

  /** `offset_to_within` inherited from `MemoryRegion`, with RAM's bounds. */
  function Offset(a: int): Result<int> {
    Region.OffsetToWithin(Base, End, a)
  }

  /** `data[o] & 0xFF` */
  function Load(ram: Ram, o: int): Result<Byte> {
    if 0 <= o < |ram.data| then Ok(ram.data[o]) else Err(IndexOutOfBounds)
  }

  /** `data[o] = (byte) b` */
  function Store(ram: Ram, o: int, b: Byte): Effect<Ram> {
    if 0 <= o < |ram.data| then Done(Ram(ram.data[o := b])) else Faulted(ram, IndexOutOfBounds)
  }

  function Read8(ram: Ram, a: int): (r: Result<int>)
    ensures !Region.Contains(Base, End, a) ==> r == Err(Unsupported)
    ensures Valid(ram) ==> (r.Ok? <==> Region.Contains(Base, End, a))
    ensures r.Ok? ==> 0 <= a - Base < |ram.data| && r.value == ram.data[a - Base]
  {
    var o :- Offset(a);
    var b :- Load(ram, o);
    Ok(b)
  }

  /** RAM's own `read16`: both bytes straight from the array. At `END` the
      second index is past the array. */
  function Read16(ram: Ram, a: int): (r: Result<int>)
    ensures !Region.Contains(Base, End, a) ==> r == Err(Unsupported)
    ensures Valid(ram) && Region.Contains(Base, End, a) ==> (r.Ok? <==> a < End)
    ensures Valid(ram) && a == End ==> r == Err(IndexOutOfBounds)
    ensures r.Ok? ==> 0 <= r.value <= 0xFFFF
    ensures r.Ok? ==> 0 <= a - Base && a - Base + 1 < |ram.data|
    ensures r.Ok? ==> r.value / 0x100 == ram.data[a - Base] && r.value % 0x100 == ram.data[a - Base + 1]
  {
    var o :- Offset(a);
    var hi :- Load(ram, o);
    var lo :- Load(ram, o + 1);
    Ok(hi * 0x100 + lo)
  }

  /** RAM's own `read32`: translates `a` to an offset and then hands that
      offset to `read16`, which translates it again. The second translation is
      the identity only because `BASE` is 0. The word at the offset is shifted
      left by 16 in Java `int` arithmetic, so the result is signed. */
  function Read32(ram: Ram, a: int): (r: Result<int>)
    ensures !Region.Contains(Base, End, a) ==> r == Err(Unsupported)
    ensures Valid(ram) && Region.Contains(Base, End, a) && a + 3 <= End ==>
      r == Ok(Int32(BigEndian4(ram.data[a - Base], ram.data[a - Base + 1], ram.data[a - Base + 2], ram.data[a - Base + 3])))
    ensures Valid(ram) && (a == End || a == End - 2) ==> r == Err(IndexOutOfBounds)
    ensures Valid(ram) && a == End - 1 ==> r == Err(Unsupported)
  {
    var o :- Offset(a);
    var hi :- Read16(ram, o);
    var lo :- Read16(ram, o + 2);
    Ok(Int32(hi * 0x1_0000 + lo))
  }

  /** `readbit` is not implemented. */
  function ReadBit(ram: Ram, a: int): (r: Result<int>)
    ensures r.Err? && r.fault == Unsupported
  {
    Err(Unsupported)
  }

  /** `read` is a stub that answers 0. */
  function Read(ram: Ram, a: int): (r: int)
    ensures r == 0
  {
    0
  }

  /** `writebit`: asserts the bit is 0 or 1, then stores it as the whole byte. */
  function WriteBit(ram: Ram, a: int, bit: int): (r: Effect<Ram>)
    ensures |r.state.data| == |ram.data|
    ensures bit != 0 && bit != 1 ==> r == Faulted(ram, Unsupported)
    ensures !Region.Contains(Base, End, a) ==> r == Faulted(ram, Unsupported)
    ensures Valid(ram) && Region.Contains(Base, End, a) && (bit == 0 || bit == 1) ==>
      r.Done? && Stored(ram, r.state, a - Base, [bit])
  {
    if bit != 0 && bit != 1 then Faulted(ram, Unsupported)
    else
      match Offset(a)
      case Err(f) => Faulted(ram, f)
      case Ok(o) => Store(ram, o, bit)
  }

  /** `write8`: stores `v & 0xFF`. */
  function Write8(ram: Ram, a: int, v: int): (r: Effect<Ram>)
    ensures |r.state.data| == |ram.data|
    ensures !Region.Contains(Base, End, a) ==> r == Faulted(ram, Unsupported)
    ensures Valid(ram) && Region.Contains(Base, End, a) ==> r.Done? && Stored(ram, r.state, a - Base, [Lo8(v)])
  {
    match Offset(a)
    case Err(f) => Faulted(ram, f)
    case Ok(o) => Store(ram, o, Lo8(v))
  }

  /** RAM's own `write16`: both bytes straight into the array, high byte
      first. At `END` the high byte is stored before the second index faults. */
  function Write16(ram: Ram, a: int, v: int): (r: Effect<Ram>)
    ensures |r.state.data| == |ram.data|
    ensures !Region.Contains(Base, End, a) ==> r == Faulted(ram, Unsupported)
    ensures Valid(ram) && Region.Contains(Base, End, a) && a < End ==>
      r.Done? && Stored(ram, r.state, a - Base, BytesOf16(v))
    ensures Valid(ram) && a == End ==>
      r.Faulted? && r.fault == IndexOutOfBounds && Stored(ram, r.state, a - Base, BytesOf16(v)[..1])
  {
    match Offset(a)
    case Err(f) => Faulted(ram, f)
    case Ok(o) =>
      var s1 :- Store(ram, o, Lo8(v / 0x100));
      Store(s1, o + 1, Lo8(v))
  }

  /** RAM's own `write32`: four bytes straight into the array, most
      significant first. Near `END` the bytes that fit are stored before an
      index faults. */
  function Write32(ram: Ram, a: int, v: int): (r: Effect<Ram>)
    ensures |r.state.data| == |ram.data|
    ensures !Region.Contains(Base, End, a) ==> r == Faulted(ram, Unsupported)
    ensures Valid(ram) && Region.Contains(Base, End, a) && a + 3 <= End ==>
      r.Done? && Stored(ram, r.state, a - Base, BytesOf32(v))
    ensures Valid(ram) && Region.Contains(Base, End, a) && a + 3 > End ==>
      r.Faulted? && r.fault == IndexOutOfBounds && Stored(ram, r.state, a - Base, BytesOf32(v)[..End + 1 - a])
  {
    match Offset(a)
    case Err(f) => Faulted(ram, f)
    case Ok(o) =>
      var s1 :- Store(ram, o, Lo8(v / 0x100_0000));
      var s2 :- Store(s1, o + 1, Lo8(v / 0x1_0000));
      var s3 :- Store(s2, o + 2, Lo8(v / 0x100));
      Store(s3, o + 3, Lo8(v))
  }

  /** `write` is not implemented. */
  function Write(ram: Ram, a: int, v: int): (r: Effect<Ram>)
    ensures r.Faulted? && r.fault == Unsupported && r.state == ram
  {
    Faulted(ram, Unsupported)
  }

  /** A byte written is read back masked to 8 bits; every other byte reads as before. */
  lemma Read8AfterWrite8(ram: Ram, a: int, v: int, b: int)
    requires Valid(ram) && Region.Contains(Base, End, a)
    ensures Read8(Write8(ram, a, v).state, b) == if b == a then Ok(Lo8(v)) else Read8(ram, b)
  {
  }

  /** A word written is read back as `v & 0xFFFF`. */
  lemma Read16AfterWrite16(ram: Ram, a: int, v: int)
    requires Valid(ram) && Region.Contains(Base, End, a) && a < End
    ensures Read16(Write16(ram, a, v).state, a) == Ok(Lo16(v))
  {
    var after := Write16(ram, a, v).state;
    assert after.data[a] == Lo8(v / 0x100) && after.data[a + 1] == Lo8(v);
    ByteSplit2(v);
  }

  /** A long word written is read back as the Java `int` holding its low 32 bits. */
  lemma Read32AfterWrite32(ram: Ram, a: int, v: int)
    requires Valid(ram) && Region.Contains(Base, End, a) && a + 3 <= End
    ensures Read32(Write32(ram, a, v).state, a) == Ok(Int32(v))
  {
    var after := Write32(ram, a, v).state;
    var bs := BytesOf32(v);
    assert after.data[a] == bs[0] && after.data[a + 1] == bs[1];
    assert after.data[a + 2] == bs[2] && after.data[a + 3] == bs[3];
    ByteSplit4(v);
    Int32OfMod(v);
  }

  /** A bit written is read back as the whole byte. */
  lemma Read8AfterWriteBit(ram: Ram, a: int, bit: int)
    requires Valid(ram) && Region.Contains(Base, End, a) && (bit == 0 || bit == 1)
    ensures Read8(WriteBit(ram, a, bit).state, a) == Ok(bit)
  {
  }

  /** RAM's `read16` override agrees with the interface's two-byte default
      wherever both bytes lie in the region. */
  lemma Read16MatchesDefault(ram: Ram, a: int)
    requires Valid(ram) && Region.Contains(Base, End, a) && a < End
    ensures Read16(ram, a) == Region.DefaultRead16(x => Read8(ram, x), a)
  {
    var d := Region.DefaultRead16(x => Read8(ram, x), a);
    assert d.value / 0x100 == ram.data[a - Base];
  }

  /** RAM's `write16` override agrees with the interface's two-byte default
      wherever both bytes lie in the region. */
  lemma Write16MatchesDefault(ram: Ram, a: int, v: int)
    requires Valid(ram) && Region.Contains(Base, End, a) && a < End
    ensures Write16(ram, a, v) == Region.DefaultWrite16(Write8, ram, a, v)
  {
  }
}
