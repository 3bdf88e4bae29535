/** The `MemoryRegion` interface: inclusive bounds, address translation and the
    default multi-byte accesses every region inherits from its 8-bit primitives.

    A region's `read8` is passed in as a function of the address, its `write8`
    as a function of a state, an address and a value, so that the defaults are
    stated once for every region that uses them.
 */
module Region {
  import opened Bytes
  import opened Faults

  /** `contains(a)`: both bounds are inclusive. */
  predicate Contains(base: int, end: int, a: int): (r: bool)
    ensures r ==> base <= end
    ensures r <==> 0 <= a - base <= end - base
  {
    a >= base && a <= end
  }

  /** `offset_to_within(a)`: the offset of `a` from the base; the assert on
      the bounds fails for an address outside the region. */
  function OffsetToWithin(base: int, end: int, a: int): (r: Result<int>)
    ensures r.Ok? <==> Contains(base, end, a)
    ensures r.Ok? ==> 0 <= r.value <= end - base && base + r.value == a
    ensures r.Err? ==> r.fault == Unsupported
  {
    if a >= base && a <= end then Ok(a - base) else Err(Unsupported)
  }

  /** Default `read16`: two byte reads, the one at `a` as the high byte. */
  function DefaultRead16(read8: int -> Result<int>, a: int): (r: Result<int>)
    ensures r.Ok? <==> read8(a).Ok? && read8(a + 1).Ok?
    ensures read8(a).Err? ==> r == Err(read8(a).fault)
    ensures read8(a).Ok? && read8(a + 1).Err? ==> r == Err(read8(a + 1).fault)
    ensures r.Ok? ==> 0 <= r.value <= 0xFFFF
    ensures r.Ok? ==> r.value / 0x100 == Lo8(read8(a).value) && r.value % 0x100 == Lo8(read8(a + 1).value)
  {
    var hi :- read8(a);
    var lo :- read8(a + 1);
    Ok(Lo8(hi) * 0x100 + Lo8(lo))
  }

  /** Default `read32`, as written: the LOW byte of the word at `a` shifted
      left by 16, or-ed with the whole word at `a + 1`. The two words overlap
      in the byte at `a + 1`, and at most 24 bits are ever set. */
  function DefaultRead32(read16: int -> Result<int>, a: int): (r: Result<int>)
    ensures r.Ok? <==> read16(a).Ok? && read16(a + 1).Ok?
    ensures read16(a).Err? ==> r == Err(read16(a).fault)
    ensures read16(a).Ok? && read16(a + 1).Err? ==> r == Err(read16(a + 1).fault)
    ensures r.Ok? ==> 0 <= r.value < 0x100_0000
    ensures r.Ok? ==> r.value / 0x1_0000 == Lo8(read16(a).value) && r.value % 0x1_0000 == Lo16(read16(a + 1).value)
  {
    var hi :- read16(a);
    var lo :- read16(a + 1);
    Ok(Lo8(hi) * 0x1_0000 + Lo16(lo))
  }

  /** Default `write16`: `(v >> 8) & 0xFF` to `a`, then `v & 0xFF` to `a + 1`.
      A fault in the first write skips the second. */
  function DefaultWrite16<S>(write8: (S, int, int) -> Effect<S>, s: S, a: int, v: int): (r: Effect<S>)
    ensures write8(s, a, Lo8(v / 0x100)).Faulted? ==> r == write8(s, a, Lo8(v / 0x100))
    ensures write8(s, a, Lo8(v / 0x100)).Done? ==> r == write8(write8(s, a, Lo8(v / 0x100)).state, a + 1, Lo8(v))
  {
    var s1 :- write8(s, a, Lo8(v / 0x100));
    write8(s1, a + 1, Lo8(v))
  }

  /** Default `write32`, as written: only two writes, `(v >> 16) & 0xFFFF` to
      `a` and `v & 0xFFFF` to `a + 2`; the bytes at `a + 1` and `a + 3` are
      never written. A fault in the first write skips the second. */
  function DefaultWrite32<S>(write8: (S, int, int) -> Effect<S>, s: S, a: int, v: int): (r: Effect<S>)
    ensures write8(s, a, Lo16(v / 0x1_0000)).Faulted? ==> r == write8(s, a, Lo16(v / 0x1_0000))
    ensures write8(s, a, Lo16(v / 0x1_0000)).Done? ==> r == write8(write8(s, a, Lo16(v / 0x1_0000)).state, a + 2, Lo16(v))
  {
    var s1 :- write8(s, a, Lo16(v / 0x1_0000));
    write8(s1, a + 2, Lo16(v))
  }
}
