# Daedalus byte-order adapter and diagnostic dump kernels, in Dafny

Daedalus emulates a big-endian machine (the N64) on hosts of either byte
order. This project models two parts of it.

- **`Endian.dfy`** (module `Endian`) models the byte-order adapter of
  `Source/System/Endian.h`:
  - the address "twiddle" constants `U8_TWIDDLE`, `U16_TWIDDLE` and
    `U16H_TWIDDLE`;
  - the byte swaps `BSWAP32` and `BSWAP16`, using the portable shift-and-mask
    formula;
  - `SwapEndian`.

  The build-time `DAEDALUS_ENDIAN_MODE` is an `EndianMode` parameter
  (`Little` or `Big`). Words are `bv32`, halfwords `bv16` and bytes `bv8`.
  The module also models how a host lays a word out in memory: `HostBytes`,
  `HostImage`, and reading a byte buffer through the byte twiddle
  (`TwiddledBytes`). This lets the twiddle laws be stated as "a twiddled
  narrow read sees the emulated machine's big-endian byte order".
- **`Disassemble.dfy`** (module `Disassemble`) models the dump kernels of
  `Source/Core/Disassemble.cpp`. Each kernel is a method with the source's
  loop and counters. It returns the sequence of records it would have written
  to the file, in file order:
  - `DisasmLine`: address and opcode;
  - `MemoryLine`: address, four words and the ASCII column;
  - `StringReport`: start offset and bytes.

  Addresses and counters are `u32`. Wrap-around at 2^32 is explicit in
  `AddU32`/`SubU32`.

The ROM that `Dump_Strings` scans is a byte sequence. It is read the way
`ReadValueRaw<u8>(i ^ 0x3)` reads it, which gives the byte view `StringView`.
The reports are specified by a pure function, `StringReports`. It gives the
maximal runs of bytes in `[' ', 200)` that are at least `MIN_LENGTH = 5` long
and are followed by a byte outside that range. `DumpStrings` is proved to
return exactly `StringReports(rom)`. Soundness, completeness, ordering and the
unreported trailing run are proved about that function.

Two details of the code that the model keeps as written:
- **`Dump_DisassembleMIPSRange` records.** They carry the opcode after
  `GetCorrectOp`, not the raw word. Line 58 prints `op._u32`, and `op` is
  `GetCorrectOp(*p)`.
- **The XOR in `Dump_Strings`.** It is the constant `3` on either host. It is
  the little-endian byte twiddle even in a big-endian build.

## Model

| member | source | states |
|---|---|---|
| Endian.TwiddleConstants | Source/System/Endian.h:37-48 | little-endian mode has U8_TWIDDLE = 3, U16_TWIDDLE = 2, U16H_TWIDDLE = 1; big-endian mode has all three 0; every twiddle touches only the two low address bits |
| Endian.TwiddleStaysInWord | Source/System/Endian.h:37-48 | on any u32 address and in both modes: XOR with U8_TWIDDLE or U16_TWIDDLE keeps the aligned word (`/4`); XOR with U16_TWIDDLE keeps halfword alignment (`%2`); XOR with U16H_TWIDDLE keeps the aligned halfword (`/2`) |
| Endian.TwiddleInvolution | Source/System/Endian.h:46-48 | applying any twiddle twice gives back the address, in both modes |
| Endian.XorAddr | Source/Core/Disassemble.cpp:77 | the integer index `i ^ t` for a twiddle t < 4 stays in the word of i, and its offset in the word is the two-bit XOR table |
| Endian.XorAddrIsBitwiseXor | Source/System/Endian.h:46-48 | on u32 addresses, XOR with a twiddle t < 4 keeps the bits above the low two (`a & 0xFFFFFFFC`) and XORs the low two; `a % 4 == a & 3` |
| Endian.Xor2IsBitwiseXor | Source/System/Endian.h:46-48 | the two-bit table used for the integer index equals the bitwise XOR `x ^ t` for every two-bit x and twiddle t < 4 |
| Endian.XorAddrLaws | Source/System/Endian.h:46 | the integer twiddled index is an involution; XOR by 3 mirrors the offset in the word (k becomes 3 - k); XOR by 0 is the identity |
| Endian.Bswap32ReversesBytes | Source/System/Endian.h:68 | on a little-endian host, byte k of BSWAP32(x) is byte 3 - k of x, with the shifts truncated to 32 bits |
| Endian.BigEndianSwapsAreIdentity | Source/System/Endian.h:42-43 | on a big-endian host BSWAP32, BSWAP16 and SwapEndian return their argument |
| Endian.SwapEndianInvolution | Source/System/Endian.h:77-80 | SwapEndian(SwapEndian(x)) == x in both modes |
| Endian.Bswap16Swaps | Source/System/Endian.h:69 | taken as a 16-bit result, BSWAP16 exchanges the two bytes on a little-endian host and is an involution in both modes |
| Endian.Bswap16NeedsTruncation | Source/System/Endian.h:69 | the low 16 bits of the C expression for BSWAP16, evaluated in 32 bits, are the swap; the untruncated value is not (0x1234 gives 0x123412) |
| Endian.ByteTwiddleReadsBigEndian | Source/System/Endian.h:46 | for a word stored natively, the byte at offset i ^ U8_TWIDDLE (i < 4) is the i-th most significant byte, on either host |
| Endian.SwapEndianLaysOutBigEndian | Source/System/Endian.h:77-80 | the native memory image of SwapEndian(x) is x's big-endian byte order, on either host |
| Endian.HalfTwiddleReadsBigEndian | Source/System/Endian.h:47 | a native 16-bit load at offset h ^ U16_TWIDDLE (h = 0 or 2) of a natively stored word is the big-endian halfword at h |
| Endian.HalfByteTwiddleReadsBigEndian | Source/System/Endian.h:48 | byte i ^ U16H_TWIDDLE of a natively stored halfword is its i-th most significant byte, and the image of BSWAP16(x) is x's big-endian byte order |
| Endian.TwiddledBytesAt | Source/Core/Disassemble.cpp:74-77 | byte i of a word buffer read through the byte twiddle is the buffer's byte at i ^ U8_TWIDDLE, which lies inside the buffer |
| Endian.ReadTwiddledByte | Source/Core/Disassemble.cpp:77 | the narrow read `p8[i ^ U8_TWIDDLE]` returns byte i of the twiddled view |
| Endian.TwiddledHostImageIsBigEndian | Source/Core/Disassemble.cpp:74-77 | reading a native word buffer byte by byte through the twiddle yields the words' big-endian bytes, on either host |
| Disassemble.DisassembleMIPSRange | Source/Core/Disassemble.cpp:35-63 | exactly one record per opcode; record k has address address_offset + 4k (mod 2^32) and GetCorrectOp of opcode k |
| Disassemble.DisassembleRSPRange | Source/Core/Disassemble.cpp:92-105 | exactly one record per opcode; record k has address address_offset + 4k (mod 2^32) and raw opcode k |
| Disassemble.RangeBytes | Source/Core/Disassemble.cpp:113 | after the "end < start means length" hack the range spans `end` bytes when end < start (even when start + end wraps), else end - start bytes |
| Disassemble.OpCount | Source/Core/Disassemble.cpp:139-142 | the loop over the opcodes of n bytes runs ceil(n / 4) times: 4c >= n and 4(c - 1) < n |
| Disassemble.DumpDisassemble | Source/Core/Disassemble.cpp:107-145 | no output when the start address has no host memory; otherwise ceil(range / 4) records from address `start`, record k at start + 4k (mod 2^32) |
| Disassemble.AsciiColumnBytes | Source/Core/Disassemble.cpp:75-82 | in the ASCII column byte i of the line sits at position i + i/4 and is shown as itself when in [32, 128), otherwise as '.' |
| Disassemble.AsciiColumnSeparators | Source/Core/Disassemble.cpp:83 | a space follows every fourth byte (i % 4 == 3) of the ASCII column |
| Disassemble.AsciiColumnPrintable | Source/Core/Disassemble.cpp:78-83 | every character of the ASCII column is a space, a dot or a character in [32, 128) |
| Disassemble.AsciiColumnOf | Source/Core/Disassemble.cpp:74-84 | the byte loop over a line's 16 bytes, reading each at i ^ U8_TWIDDLE, builds exactly the ASCII column of the twiddled bytes |
| Disassemble.DumpLine | Source/Core/Disassemble.cpp:72-85 | one dump line shows its four words and the ASCII column of their big-endian bytes, whatever the host order |
| Disassemble.DumpMemoryRange | Source/Core/Disassemble.cpp:66-90 | one line per four words, requiring a word count that is a multiple of 4; line k has address address_offset + 16k (mod 2^32), words 4k..4k+3 and the ASCII column of their big-endian bytes |
| Disassemble.DumpRSPDisassemble | Source/Core/Disassemble.cpp:147-189 | no output when the start address has no host memory; otherwise 256 dump lines from 0xa4000000 over the first 0x1000 bytes, then 1024 disassembly records from 0xa4001000 over the second 0x1000 bytes |
| Disassemble.ReadStringByte | Source/Core/Disassemble.cpp:219 | `ReadValueRaw<u8>(i ^ 0x3)` returns byte i of the strings view |
| Disassemble.RunEnd | Source/Core/Disassemble.cpp:217-226 | the run of string bytes from s ends at the first byte from s that is outside [32, 200), or at the end |
| Disassemble.ReportsFromAfter | Source/Core/Disassemble.cpp:217-242 | no report from offset s on starts before s |
| Disassemble.ReportsFromValid | Source/Core/Disassemble.cpp:217-242 | every report is a maximal run of string bytes, at least MIN_LENGTH long and followed by a byte that is not a string byte, and carries that run's bytes |
| Disassemble.ReportsFromOrdered | Source/Core/Disassemble.cpp:217-242 | reports come in strictly increasing, non-overlapping order |
| Disassemble.StringReportsSound | Source/Core/Disassemble.cpp:196-243 | every report of the strings dump is a reported run with its bytes, every reported byte is in [32, 200), and reports are ordered and disjoint |
| Disassemble.ReportsFromComplete | Source/Core/Disassemble.cpp:217-242 | a reported run is found from any run boundary at or before it |
| Disassemble.StringReportsComplete | Source/Core/Disassemble.cpp:196-243 | every maximal run of at least MIN_LENGTH string bytes that a non-string byte follows is reported, with its start and bytes |
| Disassemble.TrailingRunNotReported | Source/Core/Disassemble.cpp:217-244 | a run of string bytes that reaches the last ROM byte is never reported, because nothing is flushed after the loop |
| Disassemble.ReadText | Source/Core/Disassemble.cpp:233-236 | the inner loop reads exactly the `ascii_count` view bytes from `ascii_start` |
| Disassemble.ReportsFromStep | Source/Core/Disassemble.cpp:227-241 | at a byte that is not a string byte, the run before it is reported iff it has at least MIN_LENGTH bytes, and the scan restarts after that byte |
| Disassemble.ReportsFromTrailing | Source/Core/Disassemble.cpp:217-244 | a run that reaches the end of the view contributes no report |
| Disassemble.ReportsAtRunEnd | Source/Core/Disassemble.cpp:227-242 | ending a run keeps the scan's account: reports made, plus the run's report when it is long enough, plus the reports after the byte, make up all reports |
| Disassemble.DumpStrings | Source/Core/Disassemble.cpp:191-245 | the scan with ascii_start/ascii_count returns exactly the reports of the strings specification, in order |

## Left out

- File output is not modelled: `fopen`, `fprintf`, `fclose`, the dump directory and file names, and `DBGConsole_Msg`. Each kernel returns the records it would print instead. A failed `fopen` (no output) is not modelled.
- The text that `SprintOpCodeInfo` and `SprintRSPOpCodeInfo` produce is not modelled. A record keeps only the address and opcode the text is made from.
- `GetCorrectOp` is not part of this model; it is a function parameter.
- `Memory_GetInternalReadAddress` is not part of this model. Its result is an `Option` of the word buffer at the start address; `None` is the "Invalid base" path, which produces no output.
- XorAddr: the integer index is tied to C's `^` on the low two bits by `Xor2IsBitwiseXor`; its word part `a - a % 4` is linked to `a & 0xFFFFFFFC` only by the 32-bit statement of `XorAddrIsBitwiseXor`, not by a proof over integer addresses.
- DumpDisassemble: requires the buffer to hold the words the range covers. A range reaching past readable memory is not modelled.
- `RomBuffer::ReadValueRaw` and `GetRomSize` are not part of this model. The ROM is a byte sequence whose length is a multiple of 4 and below 2^32.
- The compiler intrinsics (`__builtin_bswap32`, `__builtin_bswap16`, `__builtin_allegrex_wsbh`, `_byteswap_ulong`, `_byteswap_ushort`) are not modelled. Both swaps use the portable formula.
- `Source/Base/Dev/BuildConfig.h` is configuration flags only. The uninitialised base address when `DAEDALUS_DEBUG_CONSOLE` is undefined is undefined behaviour and is not modelled.
- The `#if 0` patch-label block in `Dump_DisassembleMIPSRange` is dead code.
- The CPU, recompiler, memory map, ROM loader and vector coprocessor are not part of this model.
