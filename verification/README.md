# Verified model of the custom firmware's core algorithms

The repository is a PlayStation Portable custom firmware with its build tools.
This project models the parts of it that hold loops, arithmetic and binary
layouts which are hard to get right, and proves what they promise. Each part is
independent of the others; all of it is self-contained Dafny.

| part | files here | what is proved |
|---|---|---|
| compressed disc images | `CisoReader.dfy`, `CisoTool.dfy`, `CisoRoundTrip.dfy`, `CisoUse.dfy`, `CisoFormats.dfy`, `CisoPacked.dfy` | reading is slicing the original image, whatever is cached or pre-loaded into the caller's own buffer; unpacking undoes packing; what the packer writes, the reader opens and reads back; files of the three formats, byte by byte, are read as their image |
| option parser | `Rotation.dfy`, `Getopt.dfy`, `GetoptScanner.dfy`, `GetoptWritten.dfy` | the in-place rotation by gcd cycles; in each mode of treating non-options, over a whole run the argument vector becomes a stable permutation with the non-options moved in one stretch; a command line is read as it was meant, in the mode that the option string's sign and the environment ask for |
| SHA-1 | `Fips180.dfy`, `Sha1Compile.dfy`, `Sha1Memory.dfy`, `Sha1Padding.dfy`, `Sha1Stream.dfy`, `Sha1Known.dfy` | the streaming code, in any split of the message, is FIPS 180-4, whose first example comes out |
| 64-bit division | `Arith64.dfy` | the branch-free shift and subtract loop divides; signed division truncates toward zero |
| boot configuration | `ByteArrays.dfy`, `Btcnf.dfy`, `BtcnfList.dfy`, `BtcnfMove.dfy`, `BtcnfEdit.dfy`, `BtcnfBuild.dfy`, `BtcnfSeen.dfy`, `BtcnfWritten.dfy` | editing the binary file in place is editing the module list; building and loading are inverse; both in terms of the words at fixed places of the file |
| formatter, number parser | `Digits.dfy`, `PrintfSpec.dfy`, `Printf.dfy`, `Strtoul.dfy`, `PrintfStrtoul.dfy`, `PrintfFormat.dfy`, `PrintfPrecision.dfy`, `PrintfLaws.dfy`, `StrtoulLaws.dfy` | the count returned is what is put out; truncation; what each conversion prints, character by character; format strings mean what they are composed of; what any text is parsed to; printed numbers parse back |
| ELF tools | `FixupImports.dfy`, `PrxRelocs.dfy`, `PrxLayout.dfy`, `PrxGen.dfy`, `PrxSeen.dfy` | import headers describe exactly their stubs, and a second run changes nothing; the parts of a stripped module are disjoint and lead to each other, read from the file as a loader does |
| debugger | `GdbStub.dfy`, `GdbLaws.dfy` | a step has a breakpoint at the next instruction whatever a branch decides, and exactly when none stands in its own way; over a session, for whatever commands the host sends, breakpoints are invisible in memory |
| shared | `Bits.dfy`, `Wrappers.dfy` | 32-bit words, masks, shifts, little-endian words; optional values |

Code that works in place is modelled in place: the reader, the scanner, the hash
context, the stub, the generator and the relocation section are classes, and the
argument vector, the boot configuration, the import tables and the caller's read
buffer are arrays. Each such method is tied to a function of the old state, and
lemmas say what that function means. The last word on files, texts, argument
vectors and opcodes is in literals: `CisoFormats`, `CisoPacked`, `BtcnfSeen`,
`BtcnfWritten`, `PrxSeen`, `GetoptWritten`, `PrintfLaws`, `StrtoulLaws`, `GdbLaws`
and `Sha1Known` state what stands at which byte, or which characters come out,
without the constants and functions of the code's own specification.

Decompression is a parameter: zlib and LZ4 are functions on bytes that undo
compression and ignore what follows the stream. Host memory, files and the
network are values or arrays in memory.

## What came out differently from what one would expect

- `ciso_read` compares the 32-bit sum `offset + size` with the image size, so the
  size is cut to the end of the image exactly when that sum does not wrap
  (`ClampIsExact`); and masking the offset with `block_size - 1` gives the place
  in the block for every offset exactly when the block size is a power of two
  (`MaskIsPosition`).
- `compress_cso` raises an index error on every image that is not a whole number
  of blocks, and divides by zero at the end of an empty one (`CompressCso`).
- `ciso_open` reads as many bytes as the largest of the three headers, 48, so a
  shorter file is an I/O error even with a complete 24-byte CISO header.
- It keeps every buffer that is there, and with an index cache also its size and
  its window. The reader is in order afterwards exactly when those buffers are
  large enough and the window is empty or agrees with the new index (`FinishOpen`,
  `Open`); a file opened over another without closing it keeps the wrong window
  wherever the two indices differ in it (`StaleWindow`), and where the blocks of
  both lie alike goes on to read the first file's image (`OpenOver`): two files of
  two sectors for which it answers a wrong byte are in `Reopen`, and closing in
  between helps (`CloseAndReopen`).
- The index cache it allocates has the two entries that reading takes exactly for
  blocks of less than 1025 sectors, 2 MiB and 2 KiB (`IndexCacheBound`); `-b` of
  ciso.py can ask for more, and blocks of less than one sector divide by zero.
- `compress_cso` rounds the last index entry down, so with an alignment the reader
  does without the bytes behind the last whole unit. It reads the packed file as
  the image exactly when the last block survives that: a plain one if the file is
  a whole number of units, a compressed one if what is left of it still unpacks
  (`PackedIsCompressedImage`).
- The carry test of `sha1_hash` is exact if and only if the low counter and the
  length together stay below 2^33 (`CarryIsExact`), so the one-call form gives the
  digest for every array below 8 GiB and otherwise one with another length at its
  end (`Sha1Of`).
- `__divdi3` truncates for every pair of operands but the minimum divided by -1,
  where it answers the minimum (`Divdi3`). The sign test that replaces the
  comparison in the loop of `__divmoddi4` is wrong for a small remainder and a
  divisor above 2^63 (`SignMisleads`); the bound on the first remainder keeps
  the loop away from it.
- An exact long option name is reported ambiguous when two longer names that
  begin with it stand before it in the table (`ExactName`, and `NameFound` for all
  that can be typed).
- Where "W;" lets -W stand for long options, an empty argument behind it ends the
  scan as "--" does, and inside a group of letters nothing else does
  (`EmptyNameEnds`).
- `AddPRX` stores flags of 0xFFFF as they are, without the usual load mode in the
  upper half (`StoredFlagsAreRunlevels`). `MovePrx` ignores the answer of
  `RemovePrx`.
- `MovePrx` leaves the old entry in the table, only without the runlevels, and
  every function changes the first entry of a name. It moves the module in a boot
  list exactly when no later entry of its name is enabled there (`MoveMovesBoot`);
  otherwise the module boots twice (`LaterStays`). So does a module moved twice to
  a place behind the one where it stood at first (`SecondMoveDoubles`, and
  `SecondMoveOfTwo` for a file of two modules).
- The library's `isupper` holds of every character, so a lower-case letter counts
  from 42 on and `strtoul` takes no lower-case digit in bases up to 36
  (`LowerCaseIsNoDigit`). A field printed with `%x` or `%p`, under all flags, widths
  and precisions, reads back exactly when its digits hold no letter
  (`LowerFieldParses`, and `LowerCaseHex` for the bare digits).
- A negative precision written out, such as `.-5`, should count as none, but the
  minus only clears the flag that a precision was given and the number stays
  (`MinusKeepsNumber`, `MinusFiveIsRead`): a 7 comes out as 00007 (`MinusFivePads`).
  It counts as none exactly for texts, floating-point numbers and pointers, and
  where the field has room for its zeros anyway (`NegativePrecision`). `%c` and `%%`
  are padded with zeros up to a precision, `%.3c` giving 00A (`DotThreeIsRead`,
  `DotThreePads`); a precision does nothing to them exactly when it is at most one
  or zeros fill the width anyway (`CharacterPrecision`).
- No section of imports is safe with the check of stub addresses alone, since the
  end of the section passes it: if the check accepts any address, it accepts one
  without a whole import behind it (`CheckNeverSuffices`). Counts of functions have
  16 bits, and the rebuilt headers describe their stubs exactly when no count
  outgrows them (`HeadersAreFixed`).
- The debugger's step does not know coprocessor branches on a condition bit other
  than the first; those are exactly the opcodes it may miss (`StepCovers`). And a
  branch to itself or to its own delay slot has its breakpoint on what the step
  still has to run: those are exactly the other opcodes where the step stops
  before it is done (`StepIsClear`, `StepsStopEarly`).
- `reindex_sections` counts a kept null section while the writer skips it, so the
  indices are the slots of the headers exactly when section 0 is not kept
  (`IndexIsSlot`).

## Model

| member | source | states |
|---|---|---|
| `CisoReader.ClampIsExact` | src/LibCisoRead/cisoreader.c:174-181 | the size used for a read is the smaller of the request and what is left of the image, if and only if offset plus size does not wrap at 32 bits |
| `CisoReader.MaskIsPosition` | src/LibCisoRead/cisoreader.c:226 | masking with block size minus one is the remainder for all offsets if and only if the block size is a power of two |
| `CisoReader.FileOffsetIsStart` | src/LibCisoRead/cisoreader.c:240-245 | on a well-formed image the 32-bit offset computed from an index entry is where the block starts, and inside the file |
| `CisoReader.CisoFile.Open` | src/LibCisoRead/cisoreader.c:103-162 | on a CISO or ZISO image the file object afterwards describes exactly that image, missing buffers are new and the others are kept, and reading is in order exactly when those kept fit it and their window is empty or agrees with its index; short files and other signatures are refused |
| `CisoReader.CisoFile.FinishOpen` | src/LibCisoRead/cisoreader.c:79-100 | only the missing buffers are allocated, new and large enough for every block, and a new index cache starts empty; the reader is in order afterwards if and only if the index cache has two entries and those that were there are large enough, apart, and their window agrees with the index |
| `CisoReader.IndexCacheBound` | src/LibCisoRead/cisoreader.c:93-98 | the index cache allocated for a block size has two entries if and only if a block has less than 1025 sectors |
| `CisoReader.StaleWindow` | src/LibCisoRead/cisoreader.c:94-99 | a window filled from another file is wrong for this one wherever an entry in it differs |
| `CisoReader.CisoFile.Close` | src/LibCisoRead/cisoreader.c:287-307 | what was allocated is given up, supplied buffers stay, and the window is empty |
| `CisoReader.CisoFile.Decompress` | src/LibCisoRead/cisoreader.c:59-76 | plain, zlib and LZ4 blocks of all three formats leave the block's bytes at the front of the buffer |
| `CisoReader.CisoFile.RefreshIndex` | src/LibCisoRead/cisoreader.c:189-195 | the cached window agrees with the index on disk wherever the index has an entry, also when the window runs past the end |
| `CisoReader.CisoFile.LocateData` | src/LibCisoRead/cisoreader.c:187-214 | where the compressed data of a request begins and ends, from any state of the cache |
| `CisoReader.CisoFile.LocateBlock` | src/LibCisoRead/cisoreader.c:228-245 | the span and top bit of a block, the cache refreshed when the entry after it is outside |
| `CisoReader.CisoFile.Preload` | src/LibCisoRead/cisoreader.c:216-221 | the tail of the caller's buffer holds the file's bytes from the first block on, and nothing outside the buffer is written |
| `CisoReader.FetchSpan` | src/LibCisoRead/cisoreader.c:251-271 | the bytes of the block reach the block buffer on the fast and the slow path; what output has not overwritten in the caller's buffer still holds the file |
| `CisoReader.CisoFile.ReadTurn` | src/LibCisoRead/cisoreader.c:223-282 | one turn writes the next piece of the image in front and keeps the pre-loaded tail in step with the file |
| `CisoReader.CisoFile.ReadBlocks` | src/LibCisoRead/cisoreader.c:183-285 | the loop writes the requested slice of the image and nothing outside the buffer |
| `CisoReader.CisoFile.Read` | src/LibCisoRead/cisoreader.c:164-285 | for every image, offset, size and state of the cache: the answer is the number of bytes up to the end of the image, the buffer holds that slice, everything else is as it was |
| `CisoReader.CisoFile.ReadWith` | src/LibCisoRead/cisoreader.c:164-285 | the same with any index that is wholly in the cache, whatever index the file has: what is read is the image that the file's blocks make with that one |
| `CisoReader.CutTiles` | src/LibCisoRead/cisoreader.c:184-185 | the pieces a request takes from consecutive blocks are the consecutive pieces of the image |
| `CisoTool.SetAlign` | build-tools/ciso/ciso.py:180-186 | the position is rounded up to the alignment with padding bytes |
| `CisoTool.WriteBlock` | build-tools/ciso/ciso.py:254-274 | one block stored, its index entry and top bit, and the alignment error exactly when it is compressed and its entry has the top bit |
| `CisoTool.WriteBlocks` | build-tools/ciso/ciso.py:217-277 | all blocks in order with their index, from the image read piece by piece |
| `CisoTool.CompressCso` | build-tools/ciso/ciso.py:188-289 | the file written for an image of whole blocks, and exactly when it stops with the alignment error, an index error, an entry of more than 32 bits or a division by zero |
| `CisoTool.FitsAll` | build-tools/ciso/ciso.py:268-284 | when the total size fits 31 bits after the alignment shift, no entry overflows and no block raises the alignment error |
| `CisoTool.DecompressCso` | build-tools/ciso/ciso.py:93-169 | on a readable file, the blocks restored from consecutive index entries, in order; on any other, which error: a short header or index, another signature or a size of zero, an alignment of 128 and more, and for a size that is not whole blocks an index error unless the last block is plain |
| `CisoPacked.RestoredFrom` | build-tools/ciso/ciso.py:138-160 | with any index, a plain block is read from its place at full length, and any other is what zlib makes of the bytes up to the next place and, with an alignment, one unit on, or of all the rest where that place is in front of its own |
| `CisoRoundTrip.ReadCovers` | build-tools/ciso/ciso.py:138-153 | the length read for a compressed block, one unit more with alignment, always reaches the next entry |
| `CisoRoundTrip.BlockRestored` | build-tools/ciso/ciso.py:138-164 | every block comes back from its two index entries, plain or compressed, at every alignment |
| `CisoRoundTrip.UnpackUndoesPack` | build-tools/ciso/ciso.py:111-169 | unpacking the packed image is the image, for every alignment |
| `CisoRoundTrip.PackedIsCompressedImage` | build-tools/ciso/ciso.py:188-289 | for every alignment, the packed file is one the reader accepts for this very image, each block in its span, if and only if the last block does without the bytes behind the last whole unit |
| `CisoPacked.PackedAsWritten` | build-tools/ciso/ciso.py:188-289 | the bytes of the packed file: header, and for every block an entry whose top bit says plain exactly when deflating leaves the threshold's share of it or more, leading to the next whole unit behind the block before, with padding between, where the block stands as it is or deflated; the last entry is the end of the file in whole units |
| `CisoPacked.AlignErrorMeans` | build-tools/ciso/ciso.py:254-274 | the alignment error is raised if and only if a block that is deflated would start at a number of units that has bit 31 set |
| `CisoUse.PackOpenRead` | src/LibCisoRead/cisoreader.c:103-285 | an image that is packed, opened and read gives, for every offset and size, the bytes up to its end and that slice of it; only a packed file shorter than 48 bytes is refused |
| `CisoUse.OpenOver` | src/LibCisoRead/cisoreader.c:94-99 | a file opened over one whose whole index is cached is read with that index, wherever the blocks of both lie alike |
| `CisoUse.Reopen` | src/LibCisoRead/cisoreader.c:94-99 | two well-formed files for which the first byte read after opening one over the other is not that of its image |
| `CisoUse.CloseAndReopen` | src/LibCisoRead/cisoreader.c:287-307 | closing the first of them in between, it is |
| `CisoFormats.WrittenIsImage` | src/LibCisoRead/cisoreader.c:145-157 | a file of 'CISO' or 'ZISO' and either version, with its sizes, an index over spans that are plain or undone by the decompressor of its format, is one the reader takes for the image its blocks make |
| `CisoFormats.ReadWritten` | src/LibCisoRead/cisoreader.c:59-285 | such a file is opened without an error and every read is the slice of that image: plain or zlib for CISO, plain or LZ4 for ZISO, and for version 2 plain at full length, LZ4 under the top bit and zlib otherwise |
| `Rotation.ComputeGcd` | tools/getopt_long.c:90-102 | the loop computes the greatest common divisor of Euclid's recursion |
| `Rotation.Bezout` | tools/getopt_long.c:90-102 | that number divides both operands and is a combination of them |
| `Rotation.OrbitInjective` | tools/getopt_long.c:120-135 | within one cycle of length (o - s) / gcd no position is visited twice |
| `Rotation.OrbitReaches` | tools/getopt_long.c:120-135 | and every position of its residue class is visited, so the cycles cover the range |
| `Rotation.RunCycle` | tools/getopt_long.c:123-135 | one cycle of swaps puts every element of its class in its final place |
| `Rotation.PermuteArgs` | tools/getopt_long.c:109-136 | the two adjacent blocks are exchanged, each in order, and nothing else is touched |
| `GetoptScanner.Scanner.UpdatePointer` | tools/getopt_long.c:161-220 | skipping non-options and permuting earlier stretches keeps the vector a rearrangement whose parts are known |
| `GetoptScanner.Scanner.TakeLetter` | tools/getopt_long.c:221-272 | one option letter with its argument, joined or separate, optional or missing, or the text of the long option that a W stands for |
| `GetoptScanner.Scanner.TakeArgument` | tools/getopt_long.c:185-192 | with a leading "-" in the option string a non-option is reported in its place, and stays there |
| `GetoptScanner.Scanner.MeetNonOption` | tools/getopt_long.c:182-199 | without permutation a non-option is reported, or ends the scan with the vector untouched |
| `GetoptScanner.Scanner.GetoptInternal` | tools/getopt_long.c:143-273 | one call from any state between or inside arguments and in every mode: one more report, the text of a long option, or the vector permuted and everything reported |
| `GetoptScanner.Scanner.EndAtDashes` | tools/getopt_long.c:296-308 | at "--", or an empty name behind -W, the skipped stretch moves behind it and the scan is complete |
| `Getopt.EmptyNameEnds` | tools/getopt_long.c:232-251 | a group of letters ends the scan if and only if its last letter is a W that stands for long options, every earlier one takes no argument, and the next argument is empty |
| `GetoptScanner.FindLong` | tools/getopt_long.c:316-338 | the search loop answers what the table says: exact, single abbreviation, ambiguous or none |
| `Getopt.ExactName` | tools/getopt_long.c:316-338 | an exact name is found if and only if at most one longer name with this beginning stands before it |
| `Getopt.NameFound` | tools/getopt_long.c:316-338 | the search finds an option if and only if its first exact name is typed, after at most one longer name with this beginning, or the beginning of its name and of no other |
| `GetoptScanner.Scanner.TakeLong` | tools/getopt_long.c:309-400 | a long option with its argument after "=" or in the next argument, and its errors |
| `GetoptScanner.Scanner.GetoptLong` | tools/getopt_long.c:279-402 | one call keeps the state of the scan and adds one report, or ends it |
| `GetoptScanner.Scanner.ParseAll` | tools/getopt_long.c:143-308 | over a whole run, for every option string and environment, all options are reported, the vector is the permutation the syntax defines, and optind is behind the options (`GetoptWritten.ParseLine` says in which mode) |
| `Getopt.PermutedIsPermutation` | tools/getopt_long.c:104-136 | options and non-options together are exactly the arguments read |
| `Getopt.PermutedIsStable` | tools/getopt_long.c:104-136 | both keep their original order |
| `Getopt.PermutedShape` | tools/getopt_long.c:156-219 | the result is a permutation of the input with all skipped non-options in one stretch from optind on, and the arguments before the scan and behind "--" untouched |
| `GetoptWritten.FlagsRead` | tools/getopt_long.c:220-272 | a group of letters without arguments reports each of them and then what follows in the word |
| `GetoptWritten.OptionRead` | tools/getopt_long.c:220-400 | letters in a group, with an argument joined or in the next word, and long options behind dashes or -W, in full or abbreviated, with "=" or the next word, are read as many words and report what was written; so do unknown letters, unknown and ambiguous names, arguments that are refused and arguments that are missing |
| `GetoptWritten.LineIsRead` | tools/getopt_long.c:143-402 | a line composed of such options and other words in any order, closed by "--" or not, reports exactly what it was composed of: without a sign and without POSIXLY_CORRECT all of it, with "-" and without POSIXLY_CORRECT the other words too, each in its place, with "+" or POSIXLY_CORRECT up to the first of them |
| `GetoptWritten.ParseLine` | tools/getopt_long.c:143-402 | the caller's loop on that line gives those reports; without sign and POSIXLY_CORRECT it leaves options, other words and the rest in this order, otherwise the vector as it is, with optind at the first word that was not read or moved behind |
| `Sha1Compile.FastForms` | tools/sha1.c:103-111 | the faster forms of the choice and majority functions are those of FIPS 180-4, section 4.1.1 |
| `Sha1Compile.WindowMoves` | tools/sha1.c:161-164 | sixteen words used as a ring hold the last sixteen words of the 80-word schedule |
| `Sha1Compile.CycleIsRound` | tools/sha1.c:128-131 | a cycle with renamed registers is one round |
| `Sha1Compile.Compile` | tools/sha1.c:140-194 | the in-place compression of a block is the hash computation of section 6.1.2 |
| `Sha1Stream.CarryIsExact` | tools/sha1.c:214-215 | the two counters hold the exact length if and only if the low one and the chunk stay below 2^33 |
| `Sha1Stream.Context.Hash` | tools/sha1.c:209-226 | for a chunk of any length, the state stands for the message so far followed by it, and the counters are those of the carry test |
| `Sha1Stream.Context.HashEach` | tools/sha1.c:209-226 | the state after a list of chunks stands for their concatenation, and the counters hold its length when each is below 2^32 |
| `Sha1Padding.PadTail` | tools/sha1.c:236-243 | masking and joining the last word leaves the tail, a one bit and zeros |
| `Sha1Stream.LastBlocks` | tools/sha1.c:242-266 | padding with or without a block of its own for the tail is the padding of section 5.1.1, with any length field |
| `Sha1Stream.CountsOfLength` | tools/sha1.c:264-265 | the two words of the length field are those of section 5.1.1 if and only if the counters hold the length, up to a multiple of 2^61 bytes |
| `Sha1Stream.EndedIsSha1` | tools/sha1.c:230-272 | and then what the end makes of the counters is the standard's digest |
| `Sha1Stream.Context.End` | tools/sha1.c:230-272 | the digest written is that of everything fed in, padded with the length the counters hold: SHA-1 when they are exact and that is below 2^61 bytes; no byte behind it is touched |
| `Sha1Stream.Sha1Chunks` | tools/sha1.c:196-272 | however a message is split, the digest is SHA-1 of the whole |
| `Sha1Stream.Sha1Of` | tools/sha1.c:274-278 | the one-call form ends its argument, of any length, with the counters of its carry test, which is SHA-1 below 2^33 bytes |
| `Sha1Known.AbcDigest` | tools/sha1.c:140-278 | what the streaming code is proved equal to gives the digest of the standard's first example, "abc", worked out word by word |
| `Sha1Known.LengthInBits` | tools/sha1.c:264-265 | the length field is the number of bits in two words, the upper one first |
| `Arith64.Clzdi2` | src/ansi-c/arith64.c:112-121 | the answer is the number of leading zeros |
| `Arith64.ZerosBound` | src/ansi-c/arith64.c:175-177 | shifted right by the difference of leading zeros plus one, the numerator is below the divisor |
| `Arith64.SignDecides` | src/ansi-c/arith64.c:180-186 | the sign bit of b - rem - 1 tells whether rem is at least b, for remainders below 2b and, if b has its top bit, only when b fits |
| `Arith64.SignMisleads` | src/ansi-c/arith64.c:180-186 | an input outside that bound for which the sign bit is wrong |
| `Arith64.LongDivision` | src/ansi-c/arith64.c:175-189 | the shift and subtract loop ends with quotient and remainder |
| `Arith64.Divmoddi4` | src/ansi-c/arith64.c:149-189 | for all 64-bit operands, the divisor not zero: numerator is quotient times divisor plus a remainder below the divisor |
| `Arith64.Udivdi3` | src/ansi-c/arith64.c:258-261 | unsigned quotient |
| `Arith64.Umoddi3` | src/ansi-c/arith64.c:264-269 | unsigned remainder |
| `Arith64.Divdi3` | src/ansi-c/arith64.c:192-196 | the quotient rounded toward zero if and only if it is not the minimum divided by -1 |
| `Arith64.Moddi3` | src/ansi-c/arith64.c:225-230 | the remainder of that division for all operands |
| `Arith64.Truncation` | src/ansi-c/arith64.c:192-230 | quotient and remainder satisfy the division equation, the remainder has the sign of the numerator |
| `Arith64.TruncationUnique` | src/ansi-c/arith64.c:192-230 | and are the only numbers that do |
| `BtcnfEdit.SearchPrx` | src/BootLoadEx/pspbtcnf.c:15-52 | the index of the first module of that name, or which of the four errors |
| `BtcnfEdit.AddPRXNoCopyName` | src/BootLoadEx/pspbtcnf.c:54-94 | the buffer holds the file with an entry inserted; a negative answer leaves the buffer as it was |
| `BtcnfEdit.AddPRX` | src/BootLoadEx/pspbtcnf.c:96-120 | the same with the name appended when it is new |
| `BtcnfEdit.GetPrxFlag` | src/BootLoadEx/pspbtcnf.c:171-189 | the flags of the first module of that name |
| `BtcnfEdit.ModifyPrxFlag` | src/BootLoadEx/pspbtcnf.c:151-168 | the flags of that module replaced, nothing else changed |
| `BtcnfEdit.RemovePrx` | src/BootLoadEx/pspbtcnf.c:122-141 | the runlevels asked for cleared in that module |
| `BtcnfEdit.MovePrx` | src/BootLoadEx/pspbtcnf.c:143-148 | removing followed by adding, whatever removing answered |
| `BtcnfList.AddIsInsert` | src/BootLoadEx/pspbtcnf.c:54-120 | adding inserts the module before the first one named, answers the new length, and keeps every mode's count; without that module nothing changes |
| `BtcnfList.StoredFlagsAreRunlevels` | src/BootLoadEx/pspbtcnf.c:74-78 | the runlevels are stored under the usual load mode if and only if the flags are below 0xFFFF or bring the load mode themselves |
| `BtcnfMove.MoveMovesBoot` | src/BootLoadEx/pspbtcnf.c:122-148 | in the boot list of a runlevel asked for, the module leaves its place and stands in front of insertbefore, if and only if no later entry of its name is enabled there; all other boot lists stay |
| `BtcnfMove.RemovedDisables` | src/BootLoadEx/pspbtcnf.c:122-141 | removing takes the module out of the runlevels asked for if and only if no later entry of its name is enabled in them |
| `BtcnfMove.LaterStays` | src/BootLoadEx/pspbtcnf.c:143-148 | otherwise the module stands in the boot list at least twice after the move |
| `BtcnfMove.SecondMoveDoubles` | src/BootLoadEx/pspbtcnf.c:143-148 | so it does after every second move of a module to the same place behind its first one |
| `BtcnfMove.SecondMoveOfTwo` | src/BootLoadEx/pspbtcnf.c:143-148 | a well-formed file of two modules with which this happens |
| `BtcnfMove.BeforeComesNext` | src/BootLoadEx/pspbtcnf.c:143-148 | where insertbefore is enabled, it is the very next module |
| `BtcnfMove.EditsKeep` | src/BootLoadEx/pspbtcnf.c:54-168 | any sequence of edits keeps the file well formed and every mode counting all modules |
| `BtcnfSeen.SearchIsSeen` | src/BootLoadEx/pspbtcnf.c:15-52 | in terms of the words of the buffer: -1 without the signature, -2 without modules, -3 without modes, -4 without the name, otherwise the first module whose name the header's offsets lead to |
| `BtcnfSeen.ModifiedSeen` | src/BootLoadEx/pspbtcnf.c:151-168 | the first module of the name has the new flags word, and all other names, flags and counts are as before; or the error of the search, and nothing changes |
| `BtcnfSeen.RemovedSeen` | src/BootLoadEx/pspbtcnf.c:122-141 | the flags word left has 0x8001 in its upper half, whatever stood there, and of the lower sixteen bits those that were set and are not asked for; all else as before |
| `BtcnfSeen.AddedSeen` | src/BootLoadEx/pspbtcnf.c:54-120 | the new module, with 0x8001 above flags of less than 0xFFFF, stands in front of the first one named, those behind move by one, every mode counts one more in 16 bits, and the answer is the new end of the file |
| `BtcnfSeen.MovedSeen` | src/BootLoadEx/pspbtcnf.c:143-148 | moving is such a removal, whatever it answers, and such an addition to what it leaves |
| `BtcnfSeen.RemoveAndAsk` | src/BootLoadEx/pspbtcnf.c:122-189 | after a removal that succeeds, asking for the flags of that name answers that word |
| `BtcnfBuild.PspBtCnf.WriteModuleString` | build-tools/btcnf.py:269-276 | each distinct name once, and every module knows where its own stands |
| `BtcnfBuild.PspBtCnf.OutputBin` | build-tools/btcnf.py:278-290 | the file written twice over is the finished file; it fails exactly with too many modules for 16 bits |
| `BtcnfBuild.BuiltIsList` | build-tools/btcnf.py:249-290 | that file is well formed, counts all modules in every mode, and its modules are the list |
| `BtcnfWritten.BuiltSeen` | build-tools/btcnf.py:249-290 | the file in bytes: sixteen words of header, a record with its two numbers for every runlevel that some module boots in and in their order, each counting all modules, and the modules of the list, name for name and flags for flags |
| `BtcnfWritten.WriteList` | build-tools/btcnf.py:278-290 | writing a list of fewer than 65536 modules gives that file |
| `BtcnfBuild.PspBtCnf.LoadBin` | build-tools/btcnf.py:99-122 | loading appends exactly the modules of the file |
| `BtcnfBuild.AddToBuilt` | src/BootLoadEx/pspbtcnf.c:96-120 | building, adding in place and loading gives the list with the module inserted |
| `Digits.Div10` | src/ansi-c/printf.c:585-592 | the division made of shifts is exact for every 32-bit number |
| `Digits.UtoaRevEnd` | src/ansi-c/printf.c:595-632 | both branches emit the same digits for bases 8, 10 and 16 |
| `Digits.DigitCount` | src/ansi-c/printf.c:595-632 | at most one digit for every three bits, which bounds the conversion buffer |
| `Printf.ParseFormatSpecEnd` | src/ansi-c/printf.c:427-574 | the specification at a percent sign and where it ends, or that there is none |
| `PrintfFormat.SpecIsRead` | src/ansi-c/printf.c:427-574 | a specification written with its flags, width, precision, modifier and letter is read back as it was, wherever it stands |
| `PrintfFormat.FormatPrintsPieces` | src/ansi-c/printf.c:1045-1106 | a format composed of characters and such specifications prints the pieces in turn, each taking its own arguments |
| `PrintfSpec.FieldWidth` | src/ansi-c/printf.c:1299-1333 | a field is as wide as its width or its characters ask, whichever is more |
| `PrintfPrecision.MinusKeepsNumber` | src/ansi-c/printf.c:470-489 | a specification with a minus in front of its precision is read with the number and without the flag that a precision was given |
| `PrintfPrecision.MinusFiveIsRead` | src/ansi-c/printf.c:470-489 | "%.-5d" is read with a precision of 5 that is not given |
| `PrintfPrecision.MinusFivePads` | src/ansi-c/printf.c:1299-1333 | and prints 7 as 00007 |
| `PrintfPrecision.NegativePrecision` | src/ansi-c/printf.c:1299-1333 | such a precision leaves the field as it is without one if and only if it is a text, a floating-point number or a pointer, or the digits, with the zeros that fill the width where zeros do, are at least as many as it asks for |
| `PrintfPrecision.CharacterPrecision` | src/ansi-c/printf.c:1299-1333 | a precision leaves a character or percent sign as it is without one if and only if it is at most one, or at most the width where zeros fill that |
| `PrintfPrecision.DotThreeIsRead` | src/ansi-c/printf.c:470-489 | "%.3c" is read with a precision of 3 |
| `PrintfPrecision.DotThreePads` | src/ansi-c/printf.c:1299-1333 | and prints A as 00A |
| `PrintfLaws.SignedField` | src/ansi-c/printf.c:1181-1380 | d prints the signed number that the modifier leaves of the word, with "-", or the "+" or space asked for, in front of its digits and of the zeros of a precision or of the width, and spaces on the side the flag says |
| `PrintfLaws.UnsignedField` | src/ansi-c/printf.c:1181-1380 | u, o and x print the digits of what the modifier leaves of the word, in their base and case, behind the 0 or 0x of "#", with such zeros and spaces |
| `PrintfLaws.PointerField` | src/ansi-c/printf.c:1181-1380 | p prints eight hexadecimal digits, or as many as a precision asks for |
| `PrintfLaws.CharacterField` | src/ansi-c/printf.c:1293-1380 | c prints the character of the low eight bits |
| `PrintfLaws.PercentField` | src/ansi-c/printf.c:1293-1380 | and a percent sign is printed likewise |
| `PrintfLaws.TextField` | src/ansi-c/printf.c:1284-1380 | s prints as many characters of the text as the precision lets through, all without one, none of a null text, in its width on the side the flag says |
| `PrintfLaws.FloatField` | src/ansi-c/printf.c:1125-1160 | a floating-point number is printed behind its sign, and what is no number never with zeros |
| `PrintfLaws.StarsTaken` | src/ansi-c/printf.c:1056-1073 | two stars take two arguments; a negative width is one on the left, a negative precision is none |
| `PrintfLaws.OneStarTaken` | src/ansi-c/printf.c:1056-1073 | one star takes one |
| `PrintfLaws.FlagsMean` | src/ansi-c/printf.c:441-453 | any string of flags: each is set exactly when it occurs, and "+" wins over a space wherever they stand |
| `PrintfLaws.LettersKnown` | src/ansi-c/printf.c:522-571 | the letters of conversions, in either case; i is d, and e and g go the way of f |
| `PrintfLaws.PrintText` | src/ansi-c/printf.c:1393-1410 | so a buffer printed to with s alone holds that text as far as it fits, and a NUL, and the answer is its whole length |
| `PrintfLaws.PrintPlainText` | src/ansi-c/printf.c:1393-1410 | with "%s", the text itself |
| `Printf.Sink.Emit` | src/ansi-c/printf.c:1299-1380 | the padding loops put out the field in its order, and the length added is the length put out |
| `Printf.ConvertArg` | src/ansi-c/printf.c:1100-1297 | sign, prefix and characters of each conversion |
| `Printf.Vpprintf` | src/ansi-c/printf.c:1045-1384 | the answer is the number of characters put out, for every format and arguments |
| `Printf.Vsnprintf` | src/ansi-c/printf.c:1393-1410 | the buffer holds as much of the same output as fits, a NUL, and nothing behind is touched |
| `Strtoul.CutoffIsExact` | src/ansi-c/strtoul.c:35-47 | the overflow test with cutoff and limit is true exactly when the next value exceeds 32 bits |
| `Strtoul.Strtoul` | src/ansi-c/strtoul.c:8-61 | value and end of the parse for every string and base, saturated on overflow and negated behind a minus |
| `StrtoulLaws.AnyTextIsRead` | src/ansi-c/strtoul.c:8-61 | spaces, a sign, a prefix where one counts, digits of the base and any rest are read as the number of the digits, 2^32-1 when it is larger, negated in 32 bits behind a minus, with the end behind the digits or at the start without any |
| `StrtoulLaws.AnyTextHasParts` | src/ansi-c/strtoul.c:8-61 | and every text has these parts |
| `Strtoul.DigitStringsSaturate` | src/ansi-c/strtoul.c:33-60 | a digit string of any length gives its number, held at 2^32-1 exactly when it exceeds that |
| `Strtoul.LowerCaseIsNoDigit` | src/ansi-c/strtoul.c:38-45 | a lower-case letter is a digit only in bases above 42 and its place in the alphabet, so in none of the standard's; digits and upper-case letters are those of their base |
| `Strtoul.PrintThenParse` | src/ansi-c/strtoul.c:8-61 | it inverts the formatter's upper-case digits for every number in bases 8, 10 and 16 |
| `Strtoul.LowerCaseHex` | src/ansi-c/strtoul.c:38-45 | and its lower-case ones if and only if there is no letter among them |
| `PrintfStrtoul.PrintedFieldParses` | src/ansi-c/printf.c:1181-1380 | every integer conversion but lower-case hexadecimal parses back, in its own base, to the word that was meant, under every flag, width, precision and length modifier |
| `PrintfStrtoul.LowerFieldParses` | src/ansi-c/printf.c:1181-1380 | a lower-case hexadecimal field parses back, under every flag, width, precision and length modifier, if and only if its digits hold no letter |
| `PrintfStrtoul.BaseFromPrefix` | src/ansi-c/strtoul.c:27-34 | base 0 reads hexadecimal behind 0x or 0X, octal behind 0 and decimal otherwise, each saturated at 2^32-1, and base 16 passes over the prefix too |
| `FixupImports.CheckNeverSuffices` | tools/psp-fixup-imports.c:702-706 | the check of a stub's address lets only whole imports pass if and only if it lets nothing pass |
| `FixupImports.OnRecordIsWhole` | tools/psp-fixup-imports.c:684-715 | a stub that passes is on a whole import if and only if it is fixed already, or its address is a whole number of imports from the start of the section with room for one before its end |
| `FixupImports.FixOne` | tools/psp-fixup-imports.c:717-739 | the import header of one stub, its count in 16 bits |
| `FixupImports.FixupImports` | tools/psp-fixup-imports.c:651-762 | it succeeds exactly when sizes agree and all stubs pass, a stub passing when it is "jr $ra; nop" already, or carries the NID of its place and a word address from the start of the imports to their end; the stubs in front of the first that does not pass are replaced and stamped into their imports one by one, the others stay, and a warning is given exactly when one of them found functions in another import than the stub before |
| `FixupImports.HeadersAreFixed` | tools/psp-fixup-imports.c:715-739 | with stubs on whole imports, every header is counted up by its stubs and, started at zero, placed at its first, if and only if no count outgrows its 16 bits |
| `FixupImports.WarningsOfCounts` | tools/psp-fixup-imports.c:725-735 | and then a stub is warned of exactly when its library is taken up again |
| `FixupImports.TrailingWordsStay` | tools/psp-fixup-imports.c:708-739 | the words behind the last whole import stay |
| `FixupImports.NoWarningIsContiguous` | tools/psp-fixup-imports.c:725-735 | with counts started at zero, there is no warning if and only if the stubs of each library stand together |
| `FixupImports.RunOfImport` | tools/psp-fixup-imports.c:717-737 | then header and count describe exactly the library's own run of stubs |
| `FixupImports.CountsAddUp` | tools/psp-fixup-imports.c:736-737 | the counts of all imports sum to the stubs fixed |
| `FixupImports.FixupTwice` | tools/psp-fixup-imports.c:684-745 | a second run passes, warns of nothing and leaves both sections as they are |
| `PrxRelocs.RelocSection.RemoveWeakRelocs` | tools/psp-prxgen.c:364-474 | the relocations that stay are packed to the front in place, the rest is untouched, a section left empty is dropped |
| `PrxRelocs.EntryStays` | tools/psp-prxgen.c:398-446 | every relocation against a defined symbol of a usable type stands behind exactly the earlier ones of that kind |
| `PrxRelocs.NothingElseStays` | tools/psp-prxgen.c:398-446 | and there is nothing else |
| `PrxRelocs.SecondRunKeepsAll` | tools/psp-prxgen.c:398-446 | what stays would stay again |
| `PrxRelocs.KeepsMeans` | tools/psp-prxgen.c:398-446 | in bytes: a relocation stays if and only if its symbol has an entry in the table with a section number that is not zero, and its type is neither that of a 16-bit branch nor that of a 16-bit global pointer offset |
| `PrxGen.PartsOfFile` | tools/psp-prxgen.c:648-663 | the file has the size counted, and ELF header, program header, image, section headers, relocations and names stand in it one behind the other, each complete |
| `PrxLayout.SizesAreTight` | tools/psp-prxgen.c:585-634 | image and memory size hold every kept section they are for, the smaller within the larger, and are less than four bytes above what one of them needs |
| `PrxGen.Generator.ReindexSections` | tools/psp-prxgen.c:518-530 | kept sections are numbered from one, the others keep their index |
| `PrxGen.IndexIsSlot` | tools/psp-prxgen.c:518-530 | the number is the slot of the section's header if and only if the null section is not kept |
| `PrxGen.ReindexedIsIndexed` | tools/psp-prxgen.c:518-530 | after renumbering a list whose null section is not kept, every kept section carries the slot of its header |
| `PrxGen.SameLayout` | tools/psp-prxgen.c:518-530 | renumbering changes neither the layout nor whether the sections fit |
| `PrxGen.Generator.CalculateOutsize` | tools/psp-prxgen.c:569-664 | sizes and places of all parts from the kept sections |
| `PrxGen.Generator.OutputAlloc` | tools/psp-prxgen.c:724-735 | the load image, section over section |
| `PrxGen.Generator.OutputSh` | tools/psp-prxgen.c:738-805 | all section headers in their slots and that of the names behind them |
| `PrxGen.Generator.OutputRelocs` | tools/psp-prxgen.c:808-840 | the relocation sections end to end, each entry with only its type left |
| `PrxGen.Generator.OutputShstrtab` | tools/psp-prxgen.c:843-867 | the names with their NULs, and the name of the table |
| `PrxGen.Generator.OutputPrx` | tools/psp-prxgen.c:870-893 | the parts written one after the other make up the whole file |
| `PrxGen.Generator.ReindexAndOutput` | tools/psp-prxgen.c:518-893 | renumbered and written, the file of any sections that fit has the header of every kept one in the slot of its new index, leading to its name |
| `PrxGen.SectionInFile` | tools/psp-prxgen.c:738-805 | in the file, the header of every kept section stands in the slot of its index and leads to its own name |
| `PrxGen.DataOfSection` | tools/psp-prxgen.c:724-840 | and to its data: the section's bytes unless it overlaps another, or its relocations |
| `PrxGen.InfoNamesSlot` | tools/psp-prxgen.c:766-774 | a relocation section's header names the slot of the section it relocates |
| `PrxSeen.FileIsLoadable` | tools/psp-prxgen.c:569-893 | read as a loader does, with words and halfwords of the file alone: e_phoff leads to the segment, whose size and place delimit the image and whose memory size covers every section in memory; e_shoff and an index lead to the header of each kept section, which names its own string in the table of e_shstrndx and leads to its data, e_shnum counts them, and the parts follow each other |
| `PrxSeen.WriteModule` | tools/psp-prxgen.c:518-893 | renumbering and writing any sections that fit gives such a file |
| `GdbStub.StepCovers` | src/debug/gdb-stub.c:403-540 | a breakpoint stands at the next instruction however the branch decides, if and only if the opcode does not branch on another coprocessor condition bit |
| `GdbStub.StepIsClear` | src/debug/gdb-stub.c:403-540 | no breakpoint stands on the instruction or its delay slot, if and only if the opcode is not such a branch and does not branch or jump to either of them |
| `GdbStub.StepsStopEarly` | src/debug/gdb-stub.c:403-540 | a branch to itself and one to its own delay slot, where the step stops before they have run |
| `GdbLaws.BranchesTo` | src/debug/gdb-stub.c:412-457 | each conditional branch, assembled from its fields, goes on past its delay slot by its offset in words exactly when its comparison holds, otherwise behind the slot |
| `GdbLaws.ConditionBits` | src/debug/gdb-stub.c:486-507 | so does a coprocessor branch with its condition bit |
| `GdbLaws.JumpsTo` | src/debug/gdb-stub.c:458-485 | jumps stay in the 256 MB of their delay slot, and register jumps go where their register says |
| `GdbLaws.StepStopsNext` | src/debug/gdb-stub.c:777-785 | after a step from any place, the break instruction stands where the program goes next, with the instruction under it kept |
| `GdbLaws.SkipsCalls` | src/debug/gdb-stub.c:510-516 | a step that skips calls has its one breakpoint behind the delay slot of a call, and the usual ones otherwise |
| `GdbStub.Stub.StepGeneric` | src/debug/gdb-stub.c:510-539 | exactly those places hold a breakpoint, two at two different places, and the program under them is unchanged |
| `GdbStub.Stub.RemoveBreakpoints` | src/debug/gdb-stub.c:650-661 | memory is the program again and no breakpoint is live |
| `GdbStub.Stub.Serve` | src/debug/gdb-stub.c:692-785 | what each command makes of registers, place, memory and breakpoints: a command other than a step leaves no breakpoint, and the program under them changes only when the host writes to it |
| `GdbStub.Stub.HandleException` | src/debug/gdb-stub.c:645-785 | breakpoints are taken out, the host's commands are answered up to the first that restarts, and the memory under the breakpoints is what the host's writes alone would make of it |
| `GdbStub.CommandsAreSession` | src/debug/gdb-stub.c:692-785 | any commands of the host make a legal session, and answering them is what its events do to memory |
| `GdbLaws.GoesOnWith` | src/debug/gdb-stub.c:692-785 | the program goes on with the registers written last, from the place written with them or the one that the last command names, whatever other commands came between |
| `GdbLaws.GoesOnAsBefore` | src/debug/gdb-stub.c:692-785 | without such a write, with those it stopped with |
| `GdbStub.RunThenRestore` | src/debug/gdb-stub.c:650-661 | restoring gives what the program would have made of memory if and only if it did not overwrite a live breakpoint with something else than the instruction under it |
| `GdbStub.BreakpointsAreInvisible` | src/debug/gdb-stub.c:403-540 | over every session of traps, host writes, steps and runs, the memory under the breakpoints is what the same writes would make of it without any |

## Left out

- DAX and JISO images: their fast path and last block differ, and nothing is claimed for them.
- CisoReader.CisoFile.FinishOpen: block sizes below one sector without a supplied index cache, which divide by zero (cisoreader.c:95); blocks of 2 GiB and more.
- build-tools/ciso/ziso.py and the multi-process mode of ciso.py; the step of `compress_cso` that raises the alignment for images of 2 GiB and more happens before the modelled settings.
- CisoTool.DecompressCso: the quotient of size and block size is exact; Python rounds it for sizes of 2^53 bytes and more. The same holds for CisoTool.CompressCso.
- Compressed streams that a decompressor rejects; zlib and LZ4 themselves; a read callback that fails or returns short data in the middle of a file.
- CisoReader.CisoFile.Read: asks that offset plus size does not wrap, the exact condition for the size to be cut right (`ClampIsExact`), and that the buffer does not lie at address zero.
- Error texts, optopt, which of "?" and ":" stands for a missing argument, the flag and value of a long option (a report names the option's index instead), and a POSIXLY_CORRECT that changes during a scan.
- Sha1Stream.Sha1Chunks: chunks below 2^32 bytes, whose counters cannot go wrong, and, as the standard, less than 2^61 bytes in all.
- The shifts, trailing zeros, find-first-set and population counts of arith64.c: table-free bit tricks of the same kind as the leading zeros, which are modelled.
- Arith64.Divmoddi4: the trap on a zero divisor is a precondition.
- BtcnfEdit.AddPRX: asks for room in the buffer, which the function cannot see, and for files below 2 GiB; module names are bytes without a NUL, path text and its parsing are left out.
- BtcnfEdit.SearchPrx: files whose modes, modules and names stand in another order than this one, or overlap; bytes between the tables are modelled (`Gaps`), 64-byte headers as in btcnf.py. The same holds for the other functions on them.
- Floating point: the characters of a converted floating-point number are an argument; binary, write-back and 64-bit conversions, which the build leaves switched off.
- Arguments of a type other than the format asks for, and counts or widths beyond the range of a C int.
- PrintfFormat.FormatPrintsPieces: one letter for each conversion ("i" is read as "d", and "e" and "g" as "f", which differ in the characters of the number only).
- PrintfStrtoul.PrintedFieldParses: lower-case hexadecimal, which reads back only without letters (`PrintfStrtoul.LowerFieldParses`).
- fixup_nidmap and the map file.
- FixupImports.FixupImports: asks that every stub that is reached and passes the address check points to a word of the section with room for an import header before its end, since otherwise the program writes behind it. Which of these are whole imports, `OnRecordIsWhole` says; `CheckNeverSuffices`, that the check alone never brings it about.
- Loading ELF files, choosing the sections to keep and walking the relocation sections in psp-prxgen.c; a file of 2 GiB and more and more than 65535 sections.
- PrxGen.Generator.OutputPrx: asks that the null section brings no data of its own; the relocations and the image begin with section 0 in the writing loops and with section 1 in the counting ones.
- The debugger's packet text, register reads, queries and kill, and interrupts and caches; memory is words that are written whole.
- GdbStub.BreakpointsAreInvisible: speaks of memory only; what the program writes is given and the same with and without breakpoints, since registers and control flow are not modelled.
- GdbStub.Stub.Serve: a step needs the instruction and the places it can lead to in readable memory.
