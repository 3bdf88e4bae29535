# JMPE memory core in Dafny

A model of the memory subsystem of JMPE, an emulator of the Macintosh Plus
(a 68000 machine). The CPU reaches memory only through the address bus: it
asks for an 8, 16 or 32-bit read or write at an address, and the bus either
hands the access to the region that owns the address or reports a bus error.

- `Region` (region.dfy) holds the `MemoryRegion` interface: the inclusive
  `contains` test, `offset_to_within`, and the default `read16`, `read32`,
  `write16` and `write32`. The default `read16`, `write16` and `write32` are
  built from the region's `read8` or `write8`, and the default `read32` from
  its `read16`. These accesses are passed in as functions.
- `Ram` (ram.dfy) is the 1 MiB RAM at 0x000000 - 0x0FFFFF. `Rom` (rom.dfy)
  is the 128 KiB read-only ROM at 0x400000 - 0x41FFFF. Both are immutable
  values. A write returns the new value together with its outcome.
- `Bus` (bus.dfy) is the address bus. It keeps an ordered list of regions,
  the reset-time ROM overlay flag, and the ROM the overlay mirrors.
  - `resolve` applies the overlay first, then takes the first registered
    region that contains the address.
  - The 16 and 32-bit accesses check alignment first.
  - A region's `ROMWriteException` is caught and dropped.
- `BusProperties` (bus_properties.dfy) states what the bus promises across
  several calls: the overlay, registration order, writes reaching RAM and
  ROM, and the boot sequence of a RAM-plus-ROM machine.
- `Corrected` (corrected.dfy) holds the corrected definitions for the five
  findings below. The default `read32` and the default `write32` are two
  separate findings. Each sits next to a concrete input on which the code as
  written gives a different answer.
- `Clock` (clock.dfy) is the cycle counter and the period-to-cycles
  conversion. `Units` (units.dfy) holds the byte, KB and MB multipliers.
- `Faults` and `Bytes` are shared vocabulary.
  - A Java exception becomes a `Fault`: `Unmapped(a)`, `Misaligned(a)`,
    `ReadOnly`, `Unsupported`, `IndexOutOfBounds`, `IllegalArgument` or
    `DivideByZero`.
  - Reads return a `Result`.
  - Writes return an `Effect`. An `Effect` keeps the state reached before a
    fault, because a Java method that throws halfway leaves its earlier
    stores in place.

Behaviour that is modelled deliberately:

- Java `assert` statements are modelled as enabled, and a failed one is the
  `Unsupported` fault. This covers the bounds check in `offset_to_within`
  and the bit check in `writebit`.
- Java `int` arithmetic is written out where it shows in a result. The
  32-bit reads of RAM return the signed value `Int32`. `& 0xFF` is `Lo8` and
  `& 0xFFFF` is `Lo16`.
- Alignment uses `a % size`. For sizes 2 and 4 this agrees with the mask
  test `a & (size - 1)` on the 32 bits of a Java `int`, negative values
  included (`Bus.AlignmentIsMask`).
- Where the comments or method names suggest one thing and the code does
  another, the model follows the code:
  - Under the overlay a write fails with `UnsupportedOperationException`,
    which escapes the bus. It is not a `ReadOnly` fault that the bus drops.
  - The bus's `read16` and `read32` return a single byte.
  - RAM's `read32` translates the address twice. This is harmless only
    because RAM's base is 0.

## Model

| member | source | states |
|---|---|---|
| Units.UnitValues | JMPE/src/main/java/com/JMPE/memory/Unit.java:4-6 | BYTES is 1, KB is 1 << 10 = 1024, MB is 1 << 20 = 1048576 |
| Units.UnitScale | JMPE/src/main/java/com/JMPE/memory/Unit.java:13-15 | each unit's multiplier is 1024 times the previous one, and MB is KB squared |
| Clock.New | JMPE/src/main/java/com/JMPE/cpu/Clock.java:7 | a new clock has counted zero cycles |
| Clock.Advance | JMPE/src/main/java/com/JMPE/cpu/Clock.java:8-10 | the count moves by exactly the amount given, and never backwards for a non-negative amount |
| Clock.AdvanceAllSums | JMPE/src/main/java/com/JMPE/cpu/Clock.java:8-14 | after any sequence of advances from a new clock, `getCycles` is the sum of the amounts (proof by induction) |
| Clock.AdvanceTwice | JMPE/src/main/java/com/JMPE/cpu/Clock.java:8-10 | advancing by m and then n is advancing by m + n |
| Clock.AsCycles | JMPE/src/main/java/com/JMPE/cpu/Clock.java:16-18 | a zero period raises division by zero; otherwise the result is the quotient rounded toward zero, bounded on both sides for either sign of period |
| Clock.AsCyclesOne | JMPE/src/main/java/com/JMPE/cpu/Clock.java:5 | a period of 1 gives MASTER_HZ (7833600) cycles, and a period of MASTER_HZ gives 1 |
| Region.Contains | JMPE/src/main/java/com/JMPE/memory/MemoryRegion.java:54-56 | true exactly when a lies in [base, end], both bounds inclusive, and then the region is non-empty |
| Region.OffsetToWithin | JMPE/src/main/java/com/JMPE/memory/MemoryRegion.java:49-52 | succeeds exactly when base <= a <= end; the offset then lies in [0, end - base] and adds back to a; otherwise the assert fails |
| Region.DefaultRead16 | JMPE/src/main/java/com/JMPE/memory/MemoryRegion.java:17-19 | succeeds iff both byte reads do, passing on the first failure; the word is 16 bits with the masked byte at a high and the one at a + 1 low |
| Region.DefaultRead32 | JMPE/src/main/java/com/JMPE/memory/MemoryRegion.java:23-25 | as written: succeeds iff the word reads at a and a + 1 do; the result is below 2^24, its top part is only the low byte of the word at a, and the word at a + 1 overlaps it |
| Region.DefaultWrite16 | JMPE/src/main/java/com/JMPE/memory/MemoryRegion.java:35-38 | the high byte goes to a first; if that faults, the fault and state are returned; otherwise the low byte goes to a + 1 |
| Region.DefaultWrite32 | JMPE/src/main/java/com/JMPE/memory/MemoryRegion.java:42-45 | as written: two `write8` calls, at a and at a + 2, given the masked upper and lower 16-bit halves, with a fault in the first returned at once |
| Ram.Constants | JMPE/src/main/java/com/JMPE/memory/RAM.java:16-18 | SIZE is one MB and END is 0x0FFFFF |
| Ram.New | JMPE/src/main/java/com/JMPE/memory/RAM.java:22-24 | a new RAM has SIZE bytes, all zero |
| Ram.Read8 | JMPE/src/main/java/com/JMPE/memory/RAM.java:34-37 | succeeds exactly on RAM's range, returning the stored byte at a - BASE; outside the range the assert fails |
| Ram.Read16 | JMPE/src/main/java/com/JMPE/memory/RAM.java:39-43 | inside the range it succeeds iff a < END, composing the bytes at a and a + 1 big-endian; at END the second index is out of bounds |
| Ram.Read32 | JMPE/src/main/java/com/JMPE/memory/RAM.java:45-49 | where four bytes fit, the signed 32-bit big-endian value of the bytes at a..a+3; at END and END - 2 an index fault; at END - 1 the second translation's assert fails |
| Ram.ReadBit | JMPE/src/main/java/com/JMPE/memory/RAM.java:29-32 | always fails as unsupported |
| Ram.Read | JMPE/src/main/java/com/JMPE/memory/RAM.java:51-54 | always answers 0 |
| Ram.WriteBit | JMPE/src/main/java/com/JMPE/memory/RAM.java:56-61 | a bit other than 0 or 1, or an address outside the range, fails and stores nothing; otherwise the byte at a - BASE becomes the bit and every other byte is kept |
| Ram.Write8 | JMPE/src/main/java/com/JMPE/memory/RAM.java:63-67 | inside the range it stores v & 0xFF at a - BASE and keeps every other byte; outside it fails and stores nothing |
| Ram.Write16 | JMPE/src/main/java/com/JMPE/memory/RAM.java:69-74 | below END it stores the two bytes of v high first and nothing else; at END the high byte is stored and then the second index faults |
| Ram.Write32 | JMPE/src/main/java/com/JMPE/memory/RAM.java:76-83 | where four bytes fit it stores the four bytes of v most significant first and nothing else; near END it stores the bytes that fit, then faults on the index |
| Ram.Write | JMPE/src/main/java/com/JMPE/memory/RAM.java:85-88 | always fails as unsupported and changes nothing |
| Ram.Read8AfterWrite8 | JMPE/src/main/java/com/JMPE/memory/RAM.java:63-67 | a byte written reads back as v & 0xFF, and every other address reads as before |
| Ram.Read16AfterWrite16 | JMPE/src/main/java/com/JMPE/memory/RAM.java:69-74 | a word written reads back as v & 0xFFFF |
| Ram.Read32AfterWrite32 | JMPE/src/main/java/com/JMPE/memory/RAM.java:76-83 | a long word written reads back as the Java `int` holding v's low 32 bits |
| Ram.Read8AfterWriteBit | JMPE/src/main/java/com/JMPE/memory/RAM.java:56-61 | after `writebit`, `read8` returns the bit as the whole byte |
| Ram.Read16MatchesDefault | JMPE/src/main/java/com/JMPE/memory/RAM.java:39-43 | RAM's `read16` agrees with the interface default built from its `read8` wherever both bytes are in range |
| Ram.Write16MatchesDefault | JMPE/src/main/java/com/JMPE/memory/RAM.java:69-74 | RAM's `write16` agrees with the interface default built from its `write8` wherever both bytes are in range |
| Rom.Constants | JMPE/src/main/java/com/JMPE/memory/ROM.java:11-13 | SIZE is 128 KB (131072) and END is 0x41FFFF |
| Rom.New | JMPE/src/main/java/com/JMPE/memory/ROM.java:17-25 | an image of the wrong length is refused with IllegalArgument; otherwise the ROM holds exactly the image's bytes |
| Rom.Offset | JMPE/src/main/java/com/JMPE/memory/ROM.java:35-39 | ROM's own `offset_to_within`: succeeds exactly on 0x400000..0x41FFFF, giving a - BASE, which is below SIZE; otherwise the assert fails |
| Rom.ReadBit | JMPE/src/main/java/com/JMPE/memory/ROM.java:44-48 | succeeds exactly on ROM's range, giving 0 or 1 with the parity of the image byte |
| Rom.Read8 | JMPE/src/main/java/com/JMPE/memory/ROM.java:51-53 | succeeds exactly on ROM's range, returning the image byte at a - BASE |
| Rom.Read16 | JMPE/src/main/java/com/JMPE/memory/ROM.java:56-59 | inside the range it succeeds iff a < END, composing the image bytes at a - BASE and the next one big-endian; at END an index fault |
| Rom.Read32 | JMPE/src/main/java/com/JMPE/memory/ROM.java:62-65 | as written: fails as unsupported for every address, because the offset is translated a second time |
| Rom.Read | JMPE/src/main/java/com/JMPE/memory/ROM.java:71-74 | always fails as unsupported |
| Rom.WritesLeaveImage | JMPE/src/main/java/com/JMPE/memory/ROM.java:77-110 | every write of every width fails with ReadOnly and leaves the image unchanged, so every read gives what it gave before |
| Rom.Read8OfImage | JMPE/src/main/java/com/JMPE/memory/ROM.java:17-25 | for a ROM built from an image, `read8` at every address of the region is the image byte at a - BASE |
| Rom.Read16MatchesDefault | JMPE/src/main/java/com/JMPE/memory/ROM.java:56-59 | ROM's `read16` agrees with the interface default built from its `read8` wherever both bytes are in range |
| Bus.New | JMPE/src/main/java/com/JMPE/memory/Bus.java:27-33 | a new bus has no regions and no ROM, and the overlay is active |
| Bus.Register | JMPE/src/main/java/com/JMPE/memory/Bus.java:36-41 | the region is appended and earlier ones are kept in order; a ROM becomes the overlay target, replacing any earlier one; the flag is kept |
| Bus.OverlayFlag | JMPE/src/main/java/com/JMPE/memory/Bus.java:47-53 | the flag reads back as set, setting it touches nothing else, and a new bus starts with it on |
| Bus.FirstContaining | JMPE/src/main/java/com/JMPE/memory/Bus.java:100-104 | the index found contains the address and no earlier region does; none is found only when no region contains it |
| Bus.Resolve | JMPE/src/main/java/com/JMPE/memory/Bus.java:95-107 | the overlay wins when it applies, with the address moved up by ROM's BASE; otherwise the first containing region; unmapped exactly when neither exists |
| Bus.CheckAlignment | JMPE/src/main/java/com/JMPE/memory/Bus.java:109-113 | fails with Misaligned(a) exactly when a is not a multiple of the size |
| Bus.AlignmentIsMask | JMPE/src/main/java/com/JMPE/memory/Bus.java:109-113 | the mask test `a & (size - 1) == 0` on the 32 bits of the Java `int` passes exactly when `CheckAlignment` accepts `a`, for sizes 2 and 4 and negative `a` included |
| Bus.RegionWrite | JMPE/src/main/java/com/JMPE/memory/Bus.java:69-87 | a region's write leaves a region of the same kind and validity, and a ROM region reports ReadOnly unchanged |
| Bus.OverlayRead8 | JMPE/src/main/java/com/JMPE/memory/Bus.java:142 | the adapter's `read8` ignores the address it is handed: it succeeds exactly when the translated address lies in ROM, giving the image byte there |
| Bus.ReplaceKeepsValid | JMPE/src/main/java/com/JMPE/memory/Bus.java:36-41 | replacing a region by a valid one of the same kind, with a ROM region left as it was, keeps the bus valid, so the overlay target stays a registered ROM across writes |
| Bus.OverlayWrite | JMPE/src/main/java/com/JMPE/memory/Bus.java:162-166 | the adapter's writes of every width, including the inherited 16 and 32-bit defaults, fail as unsupported |
| Bus.Read8 | JMPE/src/main/java/com/JMPE/memory/Bus.java:55-57 | an unresolvable address is Unmapped(a); a value read is a byte |
| Bus.Read16 | JMPE/src/main/java/com/JMPE/memory/Bus.java:59-62 | as written: misaligned when a is odd; otherwise exactly the bus's `read8(a)` |
| Bus.Read32 | JMPE/src/main/java/com/JMPE/memory/Bus.java:64-67 | as written: misaligned unless a is a multiple of 4; otherwise exactly the bus's `read8(a)` |
| Bus.CatchRomWrite | JMPE/src/main/java/com/JMPE/memory/Bus.java:69-73 | a ReadOnly fault becomes a normal return with the same state, and every other fault passes through unchanged |
| Bus.WriteAt | JMPE/src/main/java/com/JMPE/memory/Bus.java:69-87 | keeps validity and layout; unmapped and overlay writes fail without change; a mapped write replaces only the target region and faults only for RAM; a write that resolves to ROM returns normally with nothing changed |
| Bus.Write16 | JMPE/src/main/java/com/JMPE/memory/Bus.java:75-80 | an odd address fails as misaligned with nothing changed, before resolution |
| Bus.Write32 | JMPE/src/main/java/com/JMPE/memory/Bus.java:82-87 | an address not a multiple of 4 fails as misaligned with nothing changed, before resolution |
| BusProperties.ResolveDependsOnLayout | JMPE/src/main/java/com/JMPE/memory/Bus.java:95-107 | two buses with the same flag, ROM and region kinds resolve every address alike, so writes never move an address to another region |
| BusProperties.FirstContainingDependsOnLayout | JMPE/src/main/java/com/JMPE/memory/Bus.java:100-104 | the first-match search depends only on each region's kind (proof by induction) |
| BusProperties.OverlayReadsRom | JMPE/src/main/java/com/JMPE/memory/Bus.java:95-98 | with the overlay on and a ROM registered, `read8` of the low 128 KiB is the ROM image byte at that address, whatever else is mapped there |
| BusProperties.OverlayNegativeAddress | JMPE/src/main/java/com/JMPE/memory/Bus.java:96-97 | a negative address also passes the overlay test and then fails ROM's bounds assert |
| BusProperties.OverlayWritesFail | JMPE/src/main/java/com/JMPE/memory/Bus.java:155-166 | under the overlay a write of every width escapes the bus as unsupported, with nothing changed |
| BusProperties.RomWritesIgnored | JMPE/src/main/java/com/JMPE/memory/Bus.java:69-87 | a write of every width that resolves to a ROM region returns normally and changes nothing |
| BusProperties.UnmappedAccess | JMPE/src/main/java/com/JMPE/memory/Bus.java:106 | an address no region claims is unmapped for every width; a misaligned 16/32-bit access reports Misaligned first |
| BusProperties.RegisterKeepsEarlierMatches | JMPE/src/main/java/com/JMPE/memory/Bus.java:36-41 | registering another region never changes the first match of an already mapped address |
| BusProperties.Read8AfterWrite8 | JMPE/src/main/java/com/JMPE/memory/Bus.java:69-73 | a byte written through the bus to RAM reads back as v & 0xFF, and every other address reads as before |
| BusProperties.Read16AfterWrite16 | JMPE/src/main/java/com/JMPE/memory/Bus.java:59-62 | as written: `read16` after `write16` to RAM gives only the high byte of the word written |
| BusProperties.Read32AfterWrite32 | JMPE/src/main/java/com/JMPE/memory/Bus.java:64-67 | as written: `read32` after `write32` to RAM gives only the top byte of the long word written |
| BusProperties.ReadsRam | JMPE/src/main/java/com/JMPE/memory/Bus.java:55-57 | if an address resolves to a RAM region, then every address from it up to RAM's end reads through the bus exactly as that RAM's own `read8` |
| BusProperties.FirstRegisteredWins | JMPE/src/main/java/com/JMPE/memory/Bus.java:9-11 | of two RAMs over the same range, the first registered serves every read and takes every write, and the second is left untouched |
| BusProperties.TwoRoms | JMPE/src/main/java/com/JMPE/memory/Bus.java:36-41 | with two ROMs registered, the overlay mirrors the later one while 0x400000 still resolves to the earlier one |
| BusProperties.BootOverlay | JMPE/src/main/java/com/JMPE/memory/Bus.java:29-32 | on a fresh RAM-plus-zero-ROM machine, address 0 reads the ROM's 0 and a write there escapes as unsupported |
| BusProperties.BootSequence | JMPE/src/main/java/com/JMPE/memory/Bus.java:43-49 | after the overlay is cleared, a byte written at 0 lands in RAM and reads back, and the ROM at 0x400000 still reads 0 |
| BusProperties.GapIsUnmapped | JMPE/src/main/java/com/JMPE/memory/Bus.java:15-16 | on that machine 0x200000, between RAM and ROM, is unmapped |
| Corrected.Read32Of | JMPE/src/main/java/com/JMPE/memory/MemoryRegion.java:21-25 | the long word the comment describes: succeeds iff all four byte reads do, and is the signed big-endian value of the four masked bytes |
| Corrected.RamRead32IsComposition | JMPE/src/main/java/com/JMPE/memory/RAM.java:45-49 | RAM's own `read32` equals the four-byte composition of its `read8` wherever four bytes fit |
| Corrected.RamWrite32IsComposition | JMPE/src/main/java/com/JMPE/memory/RAM.java:76-83 | RAM's own `write32` equals four byte writes, most significant first, wherever four bytes fit |
| Corrected.ComposedRoundTrip | JMPE/src/main/java/com/JMPE/memory/MemoryRegion.java:40-45 | four byte writes followed by four byte reads give back the Java `int` of v's low 32 bits |
| Corrected.DefaultRead32AsWrittenDiffers | JMPE/src/main/java/com/JMPE/memory/MemoryRegion.java:23-25 | on RAM holding 12 34 56 78 at 0, the default `read32` as written gives 0x343456 |
| Corrected.DefaultRead32OverRam | JMPE/src/main/java/com/JMPE/memory/MemoryRegion.java:23-25 | for every RAM and every address with three bytes in RAM, the default `read32` as written gives d[a+1] * 0x10000 + d[a+1] * 0x100 + d[a+2]: byte a is lost and byte a+1 appears twice |
| Corrected.ComposedRead32Sample | JMPE/src/main/java/com/JMPE/memory/MemoryRegion.java:21-22 | on the same RAM the four-byte composition gives 0x12345678 |
| Corrected.DefaultWrite32AsWrittenDiffers | JMPE/src/main/java/com/JMPE/memory/MemoryRegion.java:42-45 | the default `write32` as written of 0x12345678 to zeroed RAM leaves 34 00 78 00 at 0..3 |
| Corrected.DefaultWrite32OverRam | JMPE/src/main/java/com/JMPE/memory/MemoryRegion.java:42-45 | for every RAM and every address with three bytes in RAM, the default `write32` as written completes, stores (v >> 16) & 0xFF at a and v & 0xFF at a+2, and leaves a+1, a+3 and every other byte unchanged |
| Corrected.Write32Of | JMPE/src/main/java/com/JMPE/memory/MemoryRegion.java:40-41 | the long word the comment describes: four `write8` calls at a..a+3, most significant byte first, each on the state the previous one left, with the first fault returned together with its partial state |
| Corrected.ComposedWrite32Sample | JMPE/src/main/java/com/JMPE/memory/MemoryRegion.java:40-41 | four byte writes of 0x12345678 to zeroed RAM leave 12 34 56 78 at 0..3 |
| Corrected.RomRead32 | JMPE/src/main/java/com/JMPE/memory/ROM.java:62-64 | translating once: succeeds exactly where four bytes fit in ROM, giving the signed big-endian value of the image bytes there |
| Corrected.RomRead32IsComposition | JMPE/src/main/java/com/JMPE/memory/ROM.java:62-65 | the corrected ROM `read32` is the four-byte composition of ROM's `read8`, where the code as written fails |
| Corrected.BusRead16 | JMPE/src/main/java/com/JMPE/memory/Bus.java:59-61 | the corrected bus `read16`: misaligned for an odd address, and a value read fits in 16 bits |
| Corrected.BusRead32 | JMPE/src/main/java/com/JMPE/memory/Bus.java:64-66 | the corrected bus `read32`: misaligned unless a is a multiple of 4, and a value read is a Java `int` |
| Corrected.BusWrite | JMPE/src/main/java/com/JMPE/memory/Bus.java:70-72 | under the overlay a write is dropped like a ROM write; elsewhere the bus write as written |
| Corrected.BusWriteFaults | JMPE/src/main/java/com/JMPE/memory/Bus.java:69-73 | with that correction a write on a valid bus keeps validity and layout, and can only fault as unmapped or on RAM's end, never as ReadOnly or unsupported |
| Corrected.BusWrite16 | JMPE/src/main/java/com/JMPE/memory/Bus.java:75-80 | the corrected `write16` still rejects an odd address before resolving |
| Corrected.BusWrite32 | JMPE/src/main/java/com/JMPE/memory/Bus.java:82-87 | the corrected `write32` still rejects an address not a multiple of 4 before resolving |
| Corrected.BusRead16AfterWrite16 | JMPE/src/main/java/com/JMPE/memory/Bus.java:59-60 | with the correction, `read16` after `write16` through the bus to RAM gives back v & 0xFFFF |
| Corrected.BusRead32AfterWrite32 | JMPE/src/main/java/com/JMPE/memory/Bus.java:64-65 | with the correction, `read32` after `write32` through the bus to RAM gives back the Java `int` of v |
| Corrected.ResetVectorFromRom | JMPE/src/main/java/com/JMPE/memory/Bus.java:29-31 | under the overlay the corrected `read32` at 0 is the first long word of the ROM image, where the 68000 takes its reset stack pointer |
| Corrected.BusReadAsWrittenDiffers | JMPE/src/main/java/com/JMPE/memory/Bus.java:61 | on the booted machine, after `write16(0, 0x1234)` the bus as written reads 0x12 at 0 |
| Corrected.CorrectedBusReadSample | JMPE/src/main/java/com/JMPE/memory/Bus.java:59 | on the booted machine, after `write16(0, 0x1234)` the corrected bus reads 0x1234 at 0 |
| Corrected.OverlayWriteAsWrittenDiffers | JMPE/src/main/java/com/JMPE/memory/Bus.java:162-165 | during boot a write to 0 escapes the bus as written, and the corrected bus drops it |

## Left out

- `ROMLoader` reads a ROM image from a file. It is file I/O and is not part of this model. The model starts from the image bytes that `new ROM(image)` receives.
- The exceptions' message texts are left out. `BusException.address` is the address carried by `Unmapped(a)` and `Misaligned(a)`.
- Java's null image passed to `new ROM` (an assert) is left out. A Dafny sequence cannot be null.
- Java assertions switched off is not modelled. The model always takes a failed assert as the `Unsupported` fault. With assertions off (the JVM default), RAM's failed bounds checks become index faults on the backing array, because every out-of-range offset there is negative or at least `SIZE`. The same holds for `ROM.readbit`, `ROM.read8` and `ROM.read16` outside the ROM window (ROM's writes have no assert). `ROM.read32` inside the window still never returns: its second translation gives a negative offset and an index fault. Outside the window `ROM.read32` differs. At 0x800000 to 0x81FFFD the first translation lands inside the window and the second one inside the image, so the call returns the 24-bit value `d[k + 1] << 16 | d[k + 1] << 8 | d[k + 2]` of image bytes `d` with `k = a - 0x800000`; at every other address it is an index fault. `RAM.writebit` with a bit other than 0 or 1 stores `(byte) bit` instead of failing, and the overlay's read at a negative translated address is an index fault.
- Addresses and values are unbounded integers rather than 32-bit `int`. The model does not cover bus addresses past 2^31 wrapping to negative. Values are masked and sign-wrapped where the source's result shows it.
- The overlay adapter's `readbit`, `read`, `read16`, `read32`, `offset_to_within`, `getBaseAddress` and `getEndAddress` are left out. The bus only ever calls `read8` and the write methods on an adapter, so these cannot be reached.
- The adapter's `writebit` and `write` are left out for the same reason. The bus never calls them.
- The SCC, IWM and VIA windows appear only in a comment and have no regions in this core.
- Region identity and aliasing are left out. Each region is a value, so registering "the same" region twice makes two independent copies.
- Clock.Advance: the Java `long` counter's overflow past 2^63 is not modelled. The count is an unbounded integer.
- Clock.AsCycles: the period is an unbounded integer, not a 64-bit `long`.
- Corrected.BusRead16: its own contract states only alignment and range. The value read is stated by Corrected.BusRead16AfterWrite16 and Corrected.CorrectedBusReadSample.
- Corrected.BusRead32: its own contract states only alignment and the `int` range. The value read is stated by Corrected.BusRead32AfterWrite32 and Corrected.ResetVectorFromRom.
- Corrected.BusWrite16: its own contract states only the alignment fault. The effect of the write is stated by Corrected.BusRead16AfterWrite16.
- Corrected.BusWrite32: its own contract states only the alignment fault. The effect of the write is stated by Corrected.BusRead32AfterWrite32.
- Bus.Read8: its own contract states only the unmapped case and the byte range. The value read is stated by BusProperties.ReadsRam (a RAM-resolved address reads as that RAM's `read8`), BusProperties.OverlayReadsRom, BusProperties.Read8AfterWrite8 and Rom.Read8.
- Bus.Write8 carries no contract of its own. It is `WriteAt` at width 8, described by Bus.WriteAt and BusProperties.Read8AfterWrite8.

## Findings

| source | as written | input that shows it | evidently intended | confidence | as-written member | corrected member |
|---|---|---|---|---|---|---|
| JMPE/src/main/java/com/JMPE/memory/MemoryRegion.java:23-25 | the default `read32` masks the first word to 8 bits and reads the second word at a + 1, which overlaps the first | RAM holding 12 34 56 78 at 0, default `read32(0)` gives 0x343456 | the big-endian long word 0x12345678 | high; not executed | Corrected.DefaultRead32AsWrittenDiffers | Corrected.Read32Of |
| JMPE/src/main/java/com/JMPE/memory/MemoryRegion.java:42-45 | the default `write32` hands 16-bit halves to `write8` at a and a + 2, so only their low bytes land | `write32(0, 0x12345678)` on zeroed RAM leaves 34 00 78 00 | 12 34 56 78 | high; not executed | Corrected.DefaultWrite32AsWrittenDiffers | Corrected.ComposedRoundTrip |
| JMPE/src/main/java/com/JMPE/memory/ROM.java:62-65 | `read32` translates the address to an offset and passes it to the default, which translates it again; the second bounds check always fails | any valid ROM, `read32(0x400000)` fails | the long word of the first four image bytes | high; not executed | Rom.Read32 | Corrected.RomRead32IsComposition |
| JMPE/src/main/java/com/JMPE/memory/Bus.java:59-67 | the bus's `read16` and `read32` return the region's `read8`, one byte | booted RAM-plus-ROM bus, `write16(0, 0x1234)` then `read16(0)` gives 0x12 | 0x1234 | high; not executed | Corrected.BusReadAsWrittenDiffers | Corrected.BusRead16AfterWrite16 |
| JMPE/src/main/java/com/JMPE/memory/Bus.java:162-166 | the overlay adapter's `write8` throws `UnsupportedOperationException`, which the bus's `ROMWriteException` handler does not catch | fresh RAM-plus-ROM bus with the overlay on, `write8(0, 0x42)` escapes | dropped like any other write that reaches ROM | medium; not executed | Corrected.OverlayWriteAsWrittenDiffers | Corrected.BusWriteFaults |
