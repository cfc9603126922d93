# OpenWindows: verified models of the block layer, crash dumps, text codecs and boot console

This project models freestanding C code of the OpenWindows repository in Dafny and proves what
it promises. `dafny verify dfyconfig.toml` checks everything. Four parts:

**Hardware Translation Layer** (`Htl*.dfy`). A write-back block cache, a compacting device table
and multi-sector I/O with read-modify-write. `HtlContext.Context` holds the context's fields and
updates them in place; every call is proved to be one of the steps in `HtlSteps`. Drivers
(`HtlHardware`) may fail at any call, a failed write leaving anything in the one block it
addressed; every driver call is logged, and each call of the layer says which ones it makes (`HtlRequests`), so
that `HtlDrivers` can tell which errors come from where. Over every run of calls from initialisation the table invariant holds, the cached
layer refines a plain list of devices without a cache, a cached read returns the last accepted
write across eviction, failed flushes and renumbering, and unsaved data is never dropped. Sector
I/O refines reads and splices of one flat byte array. Raw I/O bypasses the cache. `HtlRawIO` says, from the
arguments of a call and the state before it, exactly when a raw write makes the cache incoherent and when
a raw read returns what the cache shows; the run theorems allow every raw write that keeps it coherent.
`HtlEviction` dates the stamps eviction goes by.

**Crash dumps** (`Crc32c.dfy`, `CrcDivision.dfy`, `LittleEndian.dfy`, `Dump*.dfy`). CRC32C (section 12.1 of
RFC 3720) bit by bit and as a remainder of polynomials,
the byte layout, and the producer and validator on buffers. Every built dump is accepted and
read back; two checksums that cover each other's fields determine the file; any damage confined
to 32 consecutive bits of a built dump is rejected, and so is a change of an odd number of bits in bytes
0x0C to 0xFF, or of an odd number outside the header checksum that keeps the size field.

**SuperUnicode codecs** (`PrefixCode.dfy`, `Sutf8*.dfy`, `Sutf16.dfy`, `Sust16Swapped.dfy`,
`Unitrans.dfy`). SUTF-8
decoding accepts exactly the canonical forms of the 1-to-6-byte scheme in section 2 of RFC 2279;
SUTF-16 and both SUST-16 byte orders accept exactly their encodings; unique decodability and
round trips of whole streams follow once, in `PrefixCode`, for all of them. What becomes of a SUST-16
stream in the wrong byte order is settled for every stream. Walking
NUL-terminated text with a fixed window stays inside the text. `sutf8_encode_char` does not
invert the decoder; exactly when it does is proved.

**Boot console, configuration, scripts** (`ScreenMemory.dfy`, `Terminal.dfy`, `TextLayout.dfy`, `BootVid.dfy`,
`Kconf.dfy`, `Kscript.dfy`, `CStrings.dfy`). Framebuffer bytes hold a pixel grid, the pixel grid
shows an abstract terminal, and every console call follows that terminal without touching row
padding; `TextLayout` says in which cells any text stands, line feeds, carriage returns and scrolls
included. The configuration table
refines a finite map, whatever the keys. The tokenizer yields the one list of
tokens its rules allow.

Where the code and its comments disagree, the model follows the code:

- Eviction is not first-in first-out, since writes restamp (`HtlEviction.FirstInStays`). The entry inserted
  first is evicted if and only if its last insertion or write is the oldest (`HtlEviction.EvictsFirstInIff`),
  in particular if it was not written since (`HtlEviction.UnwrittenGoesFirst`). A clean entry stamped
  0xFFFFFFFF, which a run can reach, is never evicted (`HtlEviction.CleanEntryStuck`,
  `HtlEviction.WriteAcceptedIff`).
- A sector write over a block with a clean copy leaves the copy stale (`HtlRawIO.StaleRead`), unless it
  writes what the copy holds (`HtlRawIO.RawWriteSafeIff`).
- The dump validator ignores bytes after the memory region and accepts memory sizes that wrap
  (`DumpProofs.TrailerIsAccepted`, `DumpProofs.WrapIsAccepted`).
- `sutf8_encode_char` loses most codepoints (`Sutf8Encoder.RoundTripIff`).
- A SUST-16 stream in the wrong byte order often passes as other codepoints
  (`Sust16Swapped.WrongOrderStreamFailsIff`).
- A full output buffer is reported even when everything fit (`Unitrans.RoundTrip`).
- Configuration keys of 128 characters or more are never found again (`Kconf.SetThenLookupIff`).

Bytes are integers below 256 and machine words integers with their wrap-around written out;
masks and shifts appear as ranges, quotients and remainders. The CRC register is the list of its
32 bits.

## Model

| member | source | states |
|---|---|---|
| HtlContext.Context.constructor | DLL/htl/htl.c:111-138 | the context starts empty over a zeroed cache buffer and satisfies the table invariant |
| HtlContext.Context.CacheFind | DLL/htl/htl.c:37-49 | the scan bounded by `count` finds the entry of a block if and only if there is one |
| HtlContext.Context.FindVictim | DLL/htl/htl.c:78-91 | yields the first of the evictable entries with the least stamp, or there is none |
| HtlContext.Context.CacheInsert | DLL/htl/htl.c:52-105 | the entry goes to the first free slot, else over the evictable one with the least stamp, else the table is unchanged and the insertion refused |
| HtlContext.Context.RegisterDevice | DLL/htl/htl.c:144-189 | appends a device or refuses without change, keeping the invariant |
| HtlContext.Context.ShiftDown | DLL/htl/htl.c:203-234 | devices, statistics and cache entries above the slot move down together, in order |
| HtlContext.Context.UnregisterDevice | DLL/htl/htl.c:195-238 | takes one device out of table, statistics and cache, keeping the invariant |
| HtlContext.Context.InvalidateCache | DLL/htl/htl.c:545-559 | discards exactly the device's entries |
| HtlContext.Context.ReadCached | DLL/htl/htl.c:403-446 | hit, miss, driver failure and refusals, with all counters and the caller's buffer; a miss asks the driver for the block once and returns its status, nothing else asks it |
| HtlContext.Context.WriteCached | DLL/htl/htl.c:452-494 | overwrites or inserts a dirty entry, or is refused, with all counters |
| HtlContext.Context.FlushDeviceCache | DLL/htl/htl.c:500-539 | one driver write per pending entry, in order, then the driver's own flush if it has one; each entry is written through and cleaned or left as it was; one error per failure; the status is that of the last failure |
| HtlContext.Context.ReadSectors | DLL/htl/htl.c:244-317 | asks the driver for each block of the range once, up to a failure; delivers exactly the requested bytes of the flat store, or returns that failure and counts one error |
| HtlContext.Context.WriteSectors | DLL/htl/htl.c:323-397 | reads and writes blocks covered in part, writes whole ones, up to a failure; replaces exactly the requested bytes; after a driver error a prefix is written and one block may be disturbed |
| HtlContext.Context.ZeroBlock | DLL/htl/htl.c:565-587 | one driver write, whose status is returned; zeroes one block of the store and nothing else |
| HtlSectorIO.ReadPart | DLL/htl/htl.c:278-302 | one driver read, whose status is returned; part of a block through the bounce buffer, or the whole block directly, into its place in the caller's buffer only |
| HtlSectorIO.ReadRun | DLL/htl/htl.c:263-307 | the loop delivers all sectors, or a prefix when the driver fails, for every alignment |
| HtlSectorIO.WritePart | DLL/htl/htl.c:356-377 | a read and a write for part of a block, one write for a whole one; read-modify-write is a splice of one block; errors are the driver's and touch no other block |
| HtlSectorIO.WriteRun | DLL/htl/htl.c:342-388 | the loop is one splice of the flat array; after an error exactly the first `done` sectors are in place |
| HtlSectors.Address | DLL/htl/htl.c:264-271 | block number and offset address the same byte as the sector number |
| HtlSectors.WriteInBlock | DLL/htl/htl.c:356-377 | a splice inside a block is a splice of the flat array |
| HtlSectors.InBoundsExact | DLL/htl/htl.c:257-261 | the wrapped bounds test is the true one if and only if the 64-bit sum does not wrap back into the device |
| HtlSectors.ReadAfterWrite | DLL/htl/htl.c:244-397 | reading a range just written returns what was written |
| HtlSectors.WriteElsewhere | DLL/htl/htl.c:323-397 | a sector write leaves every disjoint range as it was |
| HtlFlat.FlatUpdate | DLL/htl/htl.c:323-397 | replacing a block replaces its bytes in the flat array |
| HtlFlat.FlatInjective | DLL/htl/htl.c:323-397 | equal flat arrays have equal blocks |
| HtlCalls.InitialIsPlain | DLL/htl/htl.c:111-138 | the initial context is coherent and shows no device |
| HtlCalls.ReadCachedIsPlain | DLL/htl/htl.c:403-446 | a successful read returns the logical content and no read changes any |
| HtlCalls.WriteCachedIsPlain | DLL/htl/htl.c:452-494 | a successful write changes exactly one block and holds it dirty; any other changes none |
| HtlCalls.FlushIsPlain | DLL/htl/htl.c:500-539 | no flush changes logical content; HTL_OK leaves nothing pending and the store holding all of it |
| HtlCalls.InvalidateIsPlain | DLL/htl/htl.c:545-559 | the device falls back to its store, others keep their content |
| HtlCalls.RegisterIsPlain | DLL/htl/htl.c:144-189 | a new device shows its store, with zero statistics and nothing cached |
| HtlCalls.UnregisterHits | DLL/htl/htl.c:211-227 | renaming never merges two devices: an entry caches a block afterwards if and only if it cached that block of the former index |
| HtlCalls.UnregisterIsPlain | DLL/htl/htl.c:195-238 | one device and its statistics disappear, all others keep device, statistics and content, and no entry names a missing device |
| HtlRuns.RunKeepsInv | DLL/htl/htl.c:37-587 | the table invariant holds in every state of every run, raw I/O and driver failures included |
| HtlRuns.RawWriteLogical | DLL/htl/htl.c:323-397 | after a raw write a cached block shows its copy as before and an uncached one what the store holds |
| HtlRuns.UncachedWriteIsSplice | DLL/htl/htl.c:323-397 | a sector write to a device with nothing cached splices its flat content |
| HtlRawIO.RawWriteLands | DLL/htl/htl.c:323-397 | a raw write that returns HTL_OK leaves every byte of every block as its arguments say |
| HtlRawIO.RawWriteSafeIff | DLL/htl/htl.c:323-397 | a raw write that returns HTL_OK keeps the cache coherent if and only if every byte it writes over a block with a clean copy is the byte the copy holds |
| HtlRawIO.FailedWriteSafeIff | DLL/htl/htl.c:323-397 | a raw write that fails keeps it coherent, whatever the driver does, if and only if no block in its range has a clean copy |
| HtlRawIO.SparingRun | DLL/htl/htl.c:111-587 | a run whose raw writes meet these conditions, call by call, stays coherent and meets the hypothesis of the run theorems below |
| HtlRawIO.StaleRead | DLL/htl/htl.c:323-446 | a run in which a cached read after a sector write returns the bytes from before it |
| HtlRawIO.ReadSectorsCurrentIff | DLL/htl/htl.c:244-317 | a sector read returns the content seen through the cache if and only if no unsaved copy differs from the store within its range |
| HtlRuns.RunRefinesPlain | DLL/htl/htl.c:111-587 | as long as raw writes spare blocks with clean copies, every run is call by call a run of a layer without a cache |
| HtlGuarantees.ReadSeesLastWrite | DLL/htl/htl.c:323-587 | in every such run a cached read returns the last accepted write to that block of that store |
| HtlGuarantees.ReadSeesLastWriteOfRun | DLL/htl/htl.c:323-587 | the same with every condition on the arguments of the calls and the states before them |
| HtlGuarantees.ContentStays | DLL/htl/htl.c:111-587 | a call that does not replace a block leaves it showing the same content, even when renumbered |
| HtlGuarantees.UnsavedStays | DLL/htl/htl.c:52-559 | a dirty block stays valid, dirty and unchanged through every call but flush, invalidate, unregister or a write of it |
| HtlGuarantees.UnsavedStaysInRun | DLL/htl/htl.c:52-559 | the same over any stretch of any run |
| HtlGuarantees.FlushSavesOrKeeps | DLL/htl/htl.c:500-539 | a flush saves an unsaved block or keeps it unsaved, and saves it if it returns HTL_OK |
| HtlRequests.FlushWritesCount | DLL/htl/htl.c:512-523 | a flush makes as many writes as there are pending entries, and as many fail as stay pending |
| HtlDrivers.StatusIsDrivers | DLL/htl/htl.c:244-587 | past the parameter checks the status of every call but a cached write is that of its last driver call that failed, or HTL_OK |
| HtlDrivers.ErrorHasCause | DLL/htl/htl.c:244-587 | so an error is the status of one of its driver calls |
| HtlDrivers.HealthyCallSucceeds | DLL/htl/htl.c:244-587 | a call whose driver calls succeed succeeds; a cached write is accepted if and only if its block is cached or an entry can be replaced |
| HtlDrivers.FailuresCounted | DLL/htl/htl.c:244-587 | every call raises its device's error count by the number of its driver calls that failed, saturating, and no other device's |
| HtlDrivers.HealthyRun | DLL/htl/htl.c:111-587 | the same at every call of every run |
| HtlDrivers.HealthyRunCountsNone | DLL/htl/htl.c:111-587 | a run without driver failures counts no error, renumbering included |
| HtlDrivers.HealthyFlushSaves | DLL/htl/htl.c:500-539 | a flush without driver failures leaves the store holding all of the device's content |
| HtlEviction.HasSlotIff | DLL/htl/htl.c:52-92 | an insertion finds a slot if and only if some entry is free, or clean and stamped below 0xFFFFFFFF |
| HtlEviction.WriteAcceptedIff | DLL/htl/htl.c:452-494 | a cached write of an addressable block is accepted if and only if the block is cached or such an entry exists, and otherwise returns the stated error |
| HtlEviction.CleanEntryStuck | DLL/htl/htl.c:51-92 | a run whose one clean entry is stamped 0xFFFFFFFF and whose next write is refused |
| HtlEviction.StampDates | DLL/htl/htl.c:403-494 | until the counter wraps every entry is stamped with the clock of the last call that inserted or wrote it |
| HtlEviction.VictimIff | DLL/htl/htl.c:78-91 | until then an evictable entry of a full cache is the victim if and only if its last insertion or write comes before that of every other; an insertion and a write in the next tick tie, and the lower slot goes |
| HtlEviction.InsertionDates | DLL/htl/htl.c:52-105 | every entry in use was put there by one last insertion |
| HtlEviction.EvictsFirstInIff | DLL/htl/htl.h:185-185 | until then a call that brings a block into a full cache puts it over the evictable entry inserted first if and only if that entry's last insertion or write comes before all others |
| HtlEviction.UnwrittenGoesFirst | DLL/htl/htl.h:185-185 | which is so whenever that entry was not written since its insertion |
| HtlEviction.FirstInStays | DLL/htl/htl.h:185-185 | a run in which the block inserted first outlives the one inserted second |
| HtlGuarantees.CachedReadAfterRawWrite | DLL/htl/htl.c:323-446 | a cached read after a raw write returns the store's content if and only if the block is uncached or its copy equals, byte by byte, the old block with the written bytes put over it |
| HtlTypes.SatAdd | DLL/htl/htl.c:29-34 | the wrapped sum with its test is saturating addition |
| Crc32c.FoldByte | Extensions/bdmp_core.h:36-38 | the inner loop is eight bit steps |
| Crc32c.Pass | Extensions/bdmp_core.h:29-41 | the loop feeds the given bytes |
| Crc32c.CastagnoliIs | Extensions/bdmp_core.h:37 | the polynomial's bits are those of 0x82F63B78 |
| Crc32c.FeedConcat | Extensions/bdmp_core.h:24-41 | feeding a and then b is feeding a + b |
| Crc32c.ByteStepBijective | Extensions/bdmp_core.h:29-41 | each byte's update is a bijection on 32-bit states |
| Crc32c.FeedInjective | Extensions/bdmp_core.h:29-41 | different states stay different whatever is fed |
| Crc32c.BurstDetected | Extensions/bdmp_core.h:43-46 | strings that differ only within 32 consecutive bits have different checksums |
| Crc32c.OddDetected | Extensions/bdmp_core.h:43-46 | so have strings that differ in an odd number of bits, wherever these are |
| Crc32c.CrcParity | Extensions/bdmp_core.h:43-46 | the checksum has an odd number of set bits if and only if the string has |
| Crc32c.CastagnoliIsOdd | Extensions/bdmp_core.h:37 | the polynomial has an odd number of set bits |
| CrcDivision.DividesIff | Extensions/bdmp_core.h:29-41 | long division by x^32 + the polynomial gives the one quotient and remainder there are |
| CrcDivision.RemainderIff | Extensions/bdmp_core.h:29-41 | the remainder is the one polynomial of degree below 32 that differs by a multiple of the divisor |
| CrcDivision.FeedIsRemainder | Extensions/bdmp_core.h:29-41 | the running value is the remainder of the string times x^32 with the start value added to its front |
| CrcDivision.CrcIsRemainder | Extensions/bdmp_core.h:43-46 | the checksum is the complement of the remainder of the string times x^32, its first 32 coefficients inverted |
| DumpFormat.MemoryOffsetIs | Extensions/bdmp_core.h:49-60 | the aligned end of the trap table needs no padding for any accepted trap count |
| DumpCore.SizeToBuild | Extensions/bdmp_core.h:91-99 | nonzero exactly when nothing is to be refused, and then the true sum in spite of 32-bit arithmetic |
| DumpCore.Build | Extensions/bdmp_core.h:77-147 | refuses exactly under the stated conditions leaving the buffer alone, else lays out exactly the dump and touches nothing after it |
| DumpCore.PutSums | Extensions/bdmp_core.h:139-145 | storing the dump checksum and then the header checksum seals the file |
| DumpCore.BlankedPass | Extensions/bdmp_core.h:193-201 | five passes are one pass over the file with both checksum fields zero |
| DumpCore.Validate | Extensions/bdmp_core.h:155-204 | true if and only if the file is valid, whatever the buffer holds |
| DumpCore.BuildThenValidate | Extensions/bdmp_core.h:77-204 | what is built is accepted for every length that covers it |
| DumpProofs.SumsOkIffSealed | Extensions/bdmp_format.h:86-100 | both checksums hold if and only if the file is its own contents, sealed |
| DumpProofs.ValidIff | Extensions/bdmp_core.h:155-204 | accepted if and only if the layout is proper and the file is its own contents, sealed |
| DumpProofs.BuiltIsValid | Extensions/bdmp_core.h:77-204 | every dump is valid at the front of any buffer, for every length from its size on |
| DumpProofs.ReadBack | Extensions/bdmp_core.h:208-223 | header and accessors return the recorded fault, frame, traps and memory; the announced size is offset plus memory size |
| DumpProofs.ImageInjective | Extensions/bdmp_core.h:77-147 | different crashes have different dumps |
| DumpProofs.AcceptedLayout | Extensions/bdmp_core.h:169-179 | an accepted file has at most 64 trap records, its table ends before the memory region, which begins inside the file and ends there unless the 64-bit sum wraps |
| DumpProofs.AcceptedBegins | Extensions/bdmp_core.h:165-167 | an accepted file begins with the magic letters, format 1 and header size 256 |
| DumpProofs.ReservedAreZero | Extensions/bdmp_core.h:101-121 | the sentinel fields and header padding of every built dump are zero |
| DumpProofs.MemoryInsideIff | Extensions/bdmp_core.h:174-179 | an accepted memory region lies inside the file if and only if the 64-bit sum does not wrap |
| DumpProofs.ResealedIsValid | Extensions/bdmp_core.h:155-204 | every file with a proper layout is accepted once sealed |
| DumpProofs.WrapIsAccepted | Extensions/bdmp_core.h:174-179 | among the files whose memory size wraps the sum exactly the sealed ones are accepted, and sealing makes any accepted |
| DumpProofs.TrailerIsAccepted | Extensions/bdmp_format.h:75-81 | among the files with bytes after the memory region exactly the sealed ones are accepted, and sealing makes any accepted, against the format text |
| DumpProofs.RegionsExist | Extensions/bdmp_core.h:162-179 | every body and every region whose 64-bit sum fits gives a proper layout, so both families have members |
| DumpErrors.SumsDetectBursts | Extensions/bdmp_core.h:181-201 | two files with correct checksums and equal preambles that differ by a 32-bit burst are equal |
| DumpErrors.BurstRejected | Extensions/bdmp_core.h:155-204 | an accepted exact file is rejected after any change within 32 consecutive bits |
| DumpErrors.DamagedDumpRejected | Extensions/bdmp_core.h:77-204 | the same for every built dump |
| DumpErrors.DamagedByteRejected | Extensions/bdmp_core.h:77-204 | in particular for any change of one byte anywhere |
| DumpErrors.ValidIsEven | Extensions/bdmp_core.h:155-204 | in every accepted file an even number of bits is set in bytes 0x0C to 0xFF, and an even number outside the header checksum |
| DumpErrors.OddDamageRejected | Extensions/bdmp_core.h:155-204 | an accepted file is rejected after a change of an odd number of bits in bytes 0x0C to 0xFF, or, its size field unchanged, outside the header checksum |
| DumpErrors.OddDamagedDumpRejected | Extensions/bdmp_core.h:77-204 | the same for every built dump |
| LittleEndian.LeNatBytes | Extensions/bdmp_format.h:58-63 | a stored field reads back |
| LittleEndian.LeNatInjective | Extensions/bdmp_format.h:58-63 | fields with equal values have equal bytes |
| LittleEndian.FourBytes | Extensions/bdmp_format.h:58-63 | the bytes of a four-byte field, least significant first |
| PrefixCode.DecodeEncoded | Extensions/sutf16.h:22-33 | decoding concatenated encodings returns the codepoints |
| PrefixCode.EncodeDecoded | Extensions/sutf16.h:22-33 | an accepted stream is the encoding of what it decodes to |
| PrefixCode.EncodingInjective | Extensions/sutf16.h:22-33 | different codepoint sequences have different encodings |
| PrefixCode.PrefixFree | Extensions/sutf16.h:22-33 | no encoding begins another |
| Sutf8.DecodeIff | Extensions/sutf8.h:55-125 | accepted if and only if the string begins with the shortest form of a valid codepoint, which is then returned with that length |
| Sutf8.StreamsInjective | Extensions/sutf8.h:55-125 | byte strings that decode to the same codepoints are equal |
| Sutf8.LongForms | Extensions/sutf8.h:55-125 | the bytes of the five- and six-byte forms |
| Sutf8Walk.ReadTail | Extensions/sutf8.h:101-108 | continuation bytes are folded in, and no byte past a terminator is inspected |
| Sutf8Walk.DecodeChar | Extensions/sutf8.h:55-125 | decodes the window, also when it reaches past text that ends with a NUL |
| Sutf8Walk.NextCodepoint | Extensions/sutf8.h:213-227 | zero exactly at the end; a malformed byte is one step |
| Sutf8Walk.SixIsEnough | DLL/bootvid/bootvid.c:205-208 | the fixed six-byte window changes no result |
| Sutf8Walk.NoNulJumped | DLL/bootvid/bootvid.c:205-209 | a step never crosses a terminator |
| Sutf8Walk.WalkStep | DLL/bootvid/bootvid.c:205-209 | a step progresses and stops at or before the terminator, malformed input included |
| Sutf8Walk.CodepointCount | DLL/bootvid/bootvid.c:408-420 | ends exactly on the first NUL with the number of codepoints modulo 2^32 |
| Sutf8Walk.StopsAtNul | DLL/bootvid/bootvid.c:408-420 | nothing after the first NUL matters |
| Sutf8Walk.WalkEncoded | DLL/bootvid/bootvid.c:408-420 | walking encoded text gives back its codepoints |
| Sutf8Encoder.EncodeChar | Extensions/sutf8.h:136-201 | writes the bytes as the code has them, or nothing |
| Sutf8Encoder.RoundTripIff | Extensions/sutf8.h:136-201 | the decoder undoes the encoder if and only if the codepoint is ASCII, or above 0x7FF with all six-bit groups above the lowest equal |
| Sutf8Encoder.TwoBytesRejected | Extensions/sutf8.h:168-171 | no two-byte form is accepted |
| Sutf16.EncodeWords | Extensions/sutf16.h:58-81 | writes the codepoint's words if they fit, else nothing |
| Sutf16.DecodeWords | Extensions/sutf16.h:87-127 | returns what the words stand for, or the invalid codepoint |
| Sutf16.FromWordsIff | Extensions/sutf16.h:87-127 | accepted if and only if the words begin with the encoding of a valid codepoint |
| Sutf16.WordStreamsRoundTrip | Extensions/sutf16.h:58-127 | streams of words: decoding undoes encoding and encoding undoes decoding |
| Sutf16.EncodeBytes | Extensions/sust16.h:78-206 | the bytes are the big- or little-endian split of the words |
| Sutf16.DecodeBytes | Extensions/sust16.h:112-251 | returns what the bytes stand for in the given order, or the invalid codepoint |
| Sutf16.FromBytesParses | Extensions/sust16.h:112-251 | the byte decoders are the word decoder on unpacked words |
| Sutf16.FromBytesIff | Extensions/sust16.h:112-251 | in either order exactly the serialized words of valid codepoints are accepted |
| Sutf16.StreamsRoundTrip | Extensions/sust16.h:78-251 | streams in either order: decoding undoes encoding and encoding undoes decoding |
| Sutf16.ByteOrders | Extensions/sust16.h:78-206 | the bytes of every codepoint in either order |
| Sust16Swapped.WrongOrderFailsIff | Extensions/sust16.h:65-69 | for every codepoint, whatever follows and in both directions, exactly when the decoder of the other order fails on it |
| Sust16Swapped.SwappedStreamFailsIff | Extensions/sust16.h:112-251 | a word stream read with exchanged bytes is rejected if and only if it trips: some word taken for a marker, at an even place of its run, lacks a partner or has a clashing one |
| Sust16Swapped.WrongOrderStreamFailsIff | Extensions/sust16.h:65-69 | every stream in the other order, in both directions, is decoded as its swapped words and rejected if and only if these trip |
| Sust16Swapped.OneWordStreamFailsIff | Extensions/sust16.h:208-211 | the same for codepoints of one word, in terms of the codepoints |
| Sust16Swapped.TwoPassAsOne | Extensions/sust16.h:25-28 | two codepoints that pass as a single other one |
| Unitrans.ReadRange | Extensions/unitrans.h:67-70 | the trap range is out of reach of four-byte forms |
| Unitrans.Utf8ToSucs | Extensions/unitrans.h:30-78 | the codepoints read, the rest of the buffer kept, and the status, for every input and buffer |
| Unitrans.SucsToSutf8 | Extensions/unitrans.h:83-116 | the bytes written, the rest of the buffer kept |
| Unitrans.TranslateIs | Extensions/unitrans.h:30-78 | for every input: the codepoints are those of the whole forms from the front; invalid if and only if, with room left, the next byte is 0x80 to 0xBF or 0xF8 to 0xFF; OK if and only if, with room left, nothing or only part of a form is left |
| Unitrans.EncBytes | Extensions/unitrans.h:93-111 | the bytes are the forms in section 3 of RFC 3629 |
| Unitrans.EmitIsPrefix | Extensions/unitrans.h:90-112 | a short buffer holds whole codepoints of a prefix that ends only where one does not fit |
| Unitrans.EmitsAllIff | Extensions/unitrans.h:90-112 | everything is written if and only if it fits |
| Unitrans.TranslateStrict | Extensions/unitrans.h:30-78 | on streams the strict decoder accepts the lenient one agrees |
| Unitrans.RoundTrip | Extensions/unitrans.h:30-116 | codepoints up to 0x10FFFF survive there and back, by both decoders; OK if and only if room was left |
| ScreenMemory.OneRowChanged | DLL/bootvid/bootvid.c:101-107 | changing one row's bytes changes one row of pixels and no padding |
| Terminal.LitIsBit | DLL/bootvid/bootvid.c:117-123 | the shifting loop draws the most significant bit leftmost |
| Terminal.NoGlyphIsBlank | DLL/bootvid/bootvid.c:111-115 | codepoints without a glyph are all background |
| Terminal.GlyphPixel | DLL/bootvid/bootvid.c:111-123 | a shown character from 0x20 to 0x7E has a pixel in its foreground if and only if that bit of its glyph is set |
| Terminal.WrappedIsPainted | DLL/bootvid/bootvid.c:109-125 | a glyph that ends before 2^32 is drawn in place |
| Terminal.PaintedShows | DLL/bootvid/bootvid.c:109-125 | drawing a glyph changes exactly one text cell |
| Terminal.ScrolledShowsIff | DLL/bootvid/bootvid.c:226-249 | a scroll shows the scrolled terminal if and only if the pixel rows below the last text row are background |
| Terminal.PutKeepsOk | DLL/bootvid/bootvid.c:251-277 | the cursor column stays on the screen |
| Terminal.TypeConcat | DLL/bootvid/bootvid.c:317-319 | typing a and then b is typing a + b |
| TextLayout.TextInPlace | DLL/bootvid/bootvid.c:251-277 | control-free text of any length: the screen is the last screenful of an endless one on which character k stands k places after the cursor |
| TextLayout.TypedInPlace | DLL/bootvid/bootvid.c:251-277 | any text, line feeds and carriage returns included: each stretch after such characters begins in column 0, of the row its line feeds lead to, and stands there over what stood before, on an endless screen of which the last screenful is shown |
| TextLayout.RowAfterIs | DLL/bootvid/bootvid.c:255-259 | after a carriage return that is the same row, after a line feed the next |
| TextLayout.ControlsMove | DLL/bootvid/bootvid.c:255-259 | line feeds and carriage returns change the cursor only |
| TextLayout.PendingScroll | DLL/bootvid/bootvid.c:260-263 | newlines pending past the last row cause one scroll |
| TextLayout.LineInPlace | DLL/bootvid/bootvid.c:203-222 | codepoints without line feeds fill the columns from the start column on, row by row; every other cell stays |
| TextLayout.CodepointInPlace | DLL/bootvid/bootvid.c:203-222 | codepoint k stands in row k / w and column k % w of that region, w columns wide |
| TextLayout.LineThenMore | DLL/bootvid/bootvid.c:210-214 | after a line that fits, a line feed continues in the row after its last |
| TextLayout.OffScreen | DLL/bootvid/bootvid.c:203-222 | from a column right of the screen nothing is drawn, unless its pixel position wraps |
| TextLayout.EncodedInPlace | DLL/bootvid/bootvid.c:198-224 | encoded text, whatever follows its NUL, shows its codepoints at these cells |
| BootVid.Console.constructor | DLL/bootvid/bootvid.c:127-144 | geometry, colours and cursor as set up |
| BootVid.Console.PutPixel | DLL/bootvid/bootvid.c:101-107 | changes one pixel or, off screen, nothing; padding kept |
| BootVid.Console.PutCharRaw | DLL/bootvid/bootvid.c:109-125 | draws the glyph's pixels, at positions that wrap at 2^32, clipped to the screen, and nothing else |
| BootVid.Console.PutChar | DLL/bootvid/bootvid.c:158-173 | changes one text cell, the column's pixel position being a 32-bit product |
| BootVid.Console.Clear | DLL/bootvid/bootvid.c:146-156 | every pixel in the colour, every cell shown blank, padding kept |
| BootVid.Console.ScrollUp | DLL/bootvid/bootvid.c:226-249 | all pixel rows move up, filled from below, padding kept |
| BootVid.Console.PutC | DLL/bootvid/bootvid.c:251-277 | the terminal takes the character, a screen that shows it goes on to, padding kept |
| BootVid.Console.PutCSucs | DLL/bootvid/bootvid.c:279-306 | the same for codepoints; those outside SUCS change nothing |
| BootVid.Console.PutsAt | DLL/bootvid/bootvid.c:308-323 | whole texts in given colours, which are then restored; the screen goes on showing the terminal unless another background meets leftover pixel rows |
| BootVid.Console.PutsSucs | DLL/bootvid/bootvid.c:198-224 | SUTF-8 text, malformed or not, laid out from any position without scrolling; cells shown before are shown after |
| Kconf.StrEq | Extensions/kconf.h:57-65 | string equality |
| Kconf.Copy | Extensions/kconf.h:97-108 | the copy is cut to leave room for the terminator |
| Kconf.Registry.constructor | Extensions/kconf.h:47-55 | an empty table over memory of any contents |
| Kconf.Registry.Find | Extensions/kconf.h:70-74 | the first active entry under the key |
| Kconf.Registry.Lookup | Extensions/kconf.h:67-76 | that entry, or nothing |
| Kconf.Registry.SetStr | Extensions/kconf.h:78-115 | one set of a string cut to 127 characters; failure changes nothing |
| Kconf.Registry.SetInt | Extensions/kconf.h:117-141 | one set of a number; failure changes nothing |
| Kconf.LookupIsMap | Extensions/kconf.h:67-76 | lookup is lookup in the finite map, for every key and table |
| Kconf.SetIsStoreSet | Extensions/kconf.h:78-141 | a set under any key is a set of the map and of the entries used up, down to whether it fails |
| Kconf.RunRefinesMap | Extensions/kconf.h:47-141 | the same over every run of sets, whatever the keys |
| Kconf.FittingSet | Extensions/kconf.h:78-141 | with keys that fit a set binds its key only and fails if and only if the key is absent and 256 keys are bound |
| Kconf.FittingKeysUnique | Extensions/kconf.h:78-141 | and no key repeats |
| Kconf.LookupLastSet | Extensions/kconf.h:67-141 | a lookup of a key that fits returns the last value set under it, whatever other keys were set |
| Kconf.SetThenLookupIff | Extensions/kconf.h:92-101 | a key just set is found with its value if and only if it is shorter than 128 characters |
| Kconf.LongKeyRepeats | Extensions/kconf.h:92-101 | setting a longer key twice leaves two entries under one key |
| Kscript.ParseLine | Extensions/kscript.h:41-68 | the tokens of the line, the rest of the array kept; never past a NUL |
| Kscript.TokensIff | Extensions/kscript.h:41-68 | a list of tokens is the result if and only if each is the next maximal run and the list stops early only at the end, a newline, NUL or comment |
| Kscript.TokensApart | Extensions/kscript.h:41-68 | tokens lie in the line, in order, separated by whitespace |
| Kscript.TabsAreSpaces | Extensions/kscript.h:31-34 | lines that differ only in which whitespace stands where have the same tokens |
| Kscript.RestHidden | Extensions/kscript.h:41-68 | nothing after a newline, a NUL, or a # or ; where a token could begin, matters |
| Kscript.JoinedReads | Extensions/kscript.h:41-68 | words joined by single spaces are read back |
| Kscript.ReparseSame | Extensions/kscript.h:41-68 | parsing a line's tokens joined by single spaces gives the same tokens |
| Kscript.TokenEquals | Extensions/kscript.h:70-79 | equality with the literal |

## Left out

- HtlContext.Context.ReadCached: the 4096-byte copies of the cached calls need buffers of 4096 bytes, and block sizes up to 4096 when the block exists; larger blocks, which those copies would cut or overrun, are not modelled. The byte loops between buffer and entry are sequence values.
- HtlContext.Context.WriteCached: same restriction.
- HtlContext.Context.ZeroBlock: same restriction, the block of zeros having 4096 bytes.
- HtlContext.Context.ReadSectors: a range that passes the bounds test must have block sizes that are a positive multiple of 512 up to the 4096-byte bounce buffer, and a sum of sector number and count below 2^64; `HtlSectors.InBoundsExact` says which sums wrap back into the device. Beyond that the driver would be asked for blocks it does not have.
- HtlContext.Context.WriteSectors: same restriction.
- HtlContext.Context.RegisterDevice: device names, types and the entropy callback are not stored; two registered devices never share a store.
- HtlContext.Context.constructor: cache capacities above 2^31, whose entry numbers the 32-bit search result cannot hold, and a missing cache buffer of nonzero capacity are not modelled.
- The readiness check of live devices is left out, because the invariant makes it always pass; so are missing context pointers, device information, statistics and entropy queries.
- BootVid.Console.constructor: geometries whose rows overlap or exceed the memory are not modelled, nor are calls before initialisation; the font is a parameter with a blank first glyph.
- bootvid_puts, rectangles, lines, the progress bar, the panic screen and the cursor and colour setters would only add easy members.
- Sutf8Walk.DecodeChar: null pointers are not modelled; the same holds for the other walks.
- Kconf.Copy: strings are sequences of characters; bytes left over after a terminator are not modelled, nor is the boolean type, which no operation sets.
- Kscript: the line number field, which the parser never writes.
- The canonical big-endian SUST-16 wrappers, which only forward.
- Fixed header checks, the other transformation formats, kernel mode and trap tables, drawing libraries, the kernel gate, and headers that only declare functions.
