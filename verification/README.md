# rosu-memory: the process-memory layer, modelled in Dafny

rosu-memory reads the memory of a running osu! process. This project models
the layer it is built on:

- the Linux backend `src/memory/linux.rs`:
  - `find_process` finds the target under `/proc` by its command name;
  - `read_regions` parses `/proc/<pid>/maps` into memory regions;
  - `read_signature` scans every region for a byte pattern with wildcards;
  - `read` is one `process_vm_readv` call;
- the typed reads that `src/memory/process.rs` provides on top of `read`:
  - the little-endian primitive integers (`read_i8` to `read_u128`);
  - `read_uleb128`;
  - `read_string`, which reads the length-prefixed UTF-16 strings of the
    .NET runtime.

The modules follow the program:

- `MemoryBase` holds the shared values: bytes, `MemoryRegion`, the errors,
  and the system call seen as an oracle `Syscall`.
- `Strings` holds the standard-library text operations the backend relies
  on. These are `split`, `contains`, `split_whitespace`,
  `usize::from_str_radix` and `i32::from_str`. Each is proved against an
  inverse or a characterisation.
- `SignatureSearch` holds the contract of `find_signature`.
- `Linux` holds the `/proc` and maps specification functions and the class
  `Process`. The class has a `pid` fixed at construction and a `maps` field
  that `ReadRegions` assigns. Its methods are proved against those
  functions.
- `Encoding` holds the encodings the typed reads decode: little-endian
  two's complement, LEB128 and UTF-16. Each comes with its encoder and its
  round trips.
- `TypedRead` holds the typed reads as methods over a `Process`. Each is
  proved against a specification function of the target's memory.

The outside world enters as values:

- the `/proc` listing and file contents are the datatypes `Listing` and
  `FileRead`;
- `process_vm_readv` is a function from `(pid, base, len)` to the bytes it
  copies or an errno. It may copy fewer bytes than asked for. The source
  ignores the count, so the rest of the zero-filled buffer stays zero, and
  the model keeps that.

Two behaviours of the code that a reader might not expect:

- `find_process` does not skip a `/proc` entry whose files cannot be read.
  Every `?` in its loop ends the whole search with that error.
- `read_regions` stops at the first empty line, not only at the final one.

`Linux.FirstPidDecidedAt` and `Linux.ParseMapsStopsAtEmptyLine` state the
two behaviours as the code has them.

## Model

| member | source | states |
|---|---|---|
| Linux.Verdict | src/memory/linux.rs:30-52 | the entry where the scan stops yields a pid only when it is a process directory whose command name contains the name and whose `stat` text has a first space-separated field that `parse::<i32>` reads as that pid (so `+42` and `042` both give 42); a bad directory item, an unreadable `cmdline` or an unreadable `stat` gives `Io` with that item's or file's own code; a parse error is the one `parse` gives on the `stat` text |
| Linux.VerdictSelects | src/memory/linux.rs:45-53 | an entry selects a pid exactly when the scan stops at it with that pid |
| Linux.FirstPidDecidedAt | src/memory/linux.rs:28-60 | the first entry the loop does not `continue` past decides the result (that entry's pid or error); with none, `ProcessNotFound` |
| Linux.FirstPidNotFound | src/memory/linux.rs:57-60 | `ProcessNotFound` exactly when every entry is passed over |
| Linux.FirstPidFound | src/memory/linux.rs:28-55 | a found pid comes from a selecting entry, and every entry before it was passed over |
| Linux.Process.FindProcess | src/memory/linux.rs:22-61 | the loop returns a new process with an empty region list and the first matching pid, or the listing's, an entry's or the parse's error, or `ProcessNotFound` |
| Linux.Process.constructor | src/memory/linux.rs:58 | a process has the given pid and no regions yet |
| Linux.Process.Initialize | src/memory/linux.rs:15-20 | the process found by name, with its maps file parsed into its regions; or the first error of the two steps |
| Linux.ParseRange | src/memory/linux.rs:79-90 | the two hex fields of a line give a region exactly when both parse; it starts at the first and ends at the second; a failure is the first field's error if that field fails, else the second's, and is always a parse error |
| Linux.MapsLineParses | src/memory/linux.rs:75-90 | a line in the kernel's layout (start and end in lower-case hex zero-padded to at least eight digits, a dash between them, a space, then any trailing fields) parses back to its region |
| Linux.AddressFieldParses | src/memory/linux.rs:82-88 | every 64-bit address, zero-padded to eight hex digits as the kernel prints it, parses back to itself |
| Linux.ParseMapsLoopStep | src/memory/linux.rs:69-91 | one turn of the loop: a line that fails to parse makes the whole parse fail, and a line that parses extends the regions collected so far |
| Linux.ParseMapsLines | src/memory/linux.rs:65-91 | the loop over the lines returns what the maps specification returns |
| Linux.ParseMapsOk | src/memory/linux.rs:69-91 | a successful parse has one region per line before the first empty line, the i-th being line i's |
| Linux.ParseMapsErr | src/memory/linux.rs:82-88 | a failed parse fails with the error of the first line that does not parse, and every line before it parsed |
| Linux.ParseMapsRejectsBadField | src/memory/linux.rs:69-91 | a malformed hex field fails the whole call: a line before the first empty one whose start or end field holds a non-hex character (after an optional leading `+`) makes the parse an error |
| Linux.ParseMapsStopsAtEmptyLine | src/memory/linux.rs:71-73 | nothing after the first empty line affects the result |
| Linux.ParseMapsText | src/memory/linux.rs:69-91 | parsing a maps file in the kernel's layout (padded hex addresses, each line with its own trailing fields) gives back exactly the regions it lists, in order |
| Linux.Process.ReadRegions | src/memory/linux.rs:63-95 | the regions stored are those of the maps file; on any error the stored list is left as it was |
| Linux.ProcessVmReadv | src/memory/linux.rs:111-115 | the copied bytes land at the front of the buffer and the rest of the buffer is unchanged |
| Linux.ReadError | src/memory/linux.rs:153-161 | `EFAULT` becomes `BadAddress(addr, len)`; any other errno passes through unchanged |
| Linux.ReadZeroed | src/memory/process.rs:21-22 | a read into a zero-filled buffer succeeds exactly when the call copies, and the buffer then starts with the copied bytes; a failure is the mapped errno |
| Linux.ReadZeroedTail | src/memory/process.rs:21-22 | past the copied bytes the buffer is still all zeros |
| Linux.ScanDecidedAt | src/memory/linux.rs:101-131 | the first region that is not a miss decides the scan: an abort returns its errno, a hit its address; with none, `SignatureNotFound` |
| Linux.ScanFound | src/memory/linux.rs:101-128 | a found address is the region's start plus the lowest match offset in the first readable region that matches |
| Linux.ScanNotFound | src/memory/linux.rs:131 | `SignatureNotFound` exactly when every region is a miss |
| Linux.ScanAbortsAt | src/memory/linux.rs:117-120 | an `EPERM` or `ESRCH` read ends the scan with that errno, whatever follows |
| Linux.ScanSkipsUnreadable | src/memory/linux.rs:117-123 | a region whose read fails with another errno is skipped as if it were not listed |
| Linux.Process.ReadSignature | src/memory/linux.rs:97-132 | the loop returns what the scan specification returns over the stored regions |
| Linux.Process.ScanRegion | src/memory/linux.rs:102-128 | one region read into a zeroed buffer of its size and searched: an EPERM or ESRCH failure aborts the scan, any other failure or no match moves on, a match gives the region start plus its offset |
| Linux.Process.Read | src/memory/linux.rs:134-165 | success exactly when the call copies; the buffer then starts with the copied bytes; on failure the buffer is unchanged and the error is the mapped errno |
| Strings.SplitJoin | src/memory/linux.rs:43 | joining the pieces of a split with the separator gives back the text |
| Strings.JoinSplit | src/memory/linux.rs:69 | splitting separator-free pieces joined by the separator gives back the pieces |
| Strings.ContainsIff | src/memory/linux.rs:45 | `contains` holds exactly when the pattern occurs at some position |
| Strings.FirstWordSpec | src/memory/linux.rs:75-76 | there is no first word exactly when the line is all whitespace; a first word is non-empty and holds no whitespace |
| Strings.FirstWordOf | src/memory/linux.rs:75-76 | a whitespace-free word at the start of the text, followed by whitespace or nothing, is its first word |
| Strings.FirstWordAfterWhitespace | src/memory/linux.rs:75-76 | leading whitespace is skipped: after any run of whitespace, a whitespace-free word followed by whitespace or nothing is the first word |
| Strings.ParseHexUsizeNumeral | src/memory/linux.rs:82-88 | every 64-bit value written in hex parses back to itself |
| Strings.ParseHexUsize | src/memory/linux.rs:82-88 | a parse yields a value below 2^64, and never from an empty text or a lone sign |
| Strings.HexRejectsNonDigit | src/memory/linux.rs:82-88 | `from_str_radix(_, 16)` fails on any text holding a character that is not a hex digit, anywhere after an optional leading `+` |
| Strings.ParseHexUsizeLeadingZeros | src/memory/linux.rs:82-88 | leading zeros do not change the result of parsing a non-empty text that does not start with `+` (the empty text fails while `"000"` parses to 0) |
| Strings.ParseHexUsizePadded | src/memory/linux.rs:82-88 | every 64-bit value written in hex and zero-padded to any width parses back to itself |
| Strings.ParseI32 | src/memory/linux.rs:49-51 | a parse yields a value in the `i32` range; failures are parse errors |
| Strings.ParseI32Decimal | src/memory/linux.rs:49-51 | every `i32` printed in decimal parses back to itself |
| SignatureSearch.FindSignature | src/memory/linux.rs:125 | the offset returned is where the pattern matches, with no match before it; `None` when it matches nowhere |
| SignatureSearch.SearchExamples | src/memory/linux.rs:125-128 | a wildcard matches any byte; a pattern absent from the buffer is not found |
| Encoding.LeValueOfBytes | src/memory/process.rs:25 | the little-endian bytes of a value that fits decode to that value |
| Encoding.LeBytesOfValue | src/memory/process.rs:25 | re-encoding the value of a byte string gives the bytes back |
| Encoding.FromLeBytes | src/memory/process.rs:25 | `from_le_bytes` lies in the type's range and is the bytes' unsigned value, or that value less 2 to the width (two's complement) |
| Encoding.FromToLeBytes | src/memory/process.rs:25 | `from_le_bytes(to_le_bytes(v)) == v` for every value of every type |
| Encoding.ToFromLeBytes | src/memory/process.rs:25 | `to_le_bytes(from_le_bytes(b)) == b` for every byte array of the width |
| Encoding.LeExamples | src/memory/process.rs:106-116 | all-ones bytes are -1 signed and the maximum unsigned; bytes are least significant first |
| Encoding.UlebValueOfEncode | src/memory/process.rs:61-83 | decoding the standard encoding of a number gives the number |
| Encoding.UlebEncodeOfValue | src/memory/process.rs:61-83 | a minimal encoding is the encoding of the number it denotes |
| Encoding.UlebU64Length | src/memory/process.rs:73 | every `u64` encodes in at most ten bytes, so its shifts stay below 64 |
| Encoding.UlebStep | src/memory/process.rs:72-73 | the value so far and the shifted payload occupy disjoint bits, so `|=` adds them; the result is the longer prefix's value truncated to 64 bits |
| Encoding.UlebExamples | src/memory/process.rs:61-83 | the standard worked encodings 0, 127, 128 and 624485 |
| Encoding.CodeUnitsOfBytes | src/memory/process.rs:96-101 | viewing the bytes of some units as `u16`s gives back the units |
| Encoding.CodeUnitsAt | src/memory/process.rs:96-101 | a buffer seen as `u16`s has half as many units, unit `i` being bytes `2i` and `2i+1` little-endian |
| Encoding.UnitBytesOfUnits | src/memory/process.rs:96-101 | the units of a buffer, laid back in memory, are the buffer |
| Encoding.Utf16RoundTrip | src/memory/process.rs:103 | decoding the UTF-16 encoding of any string gives the string; nothing is replaced |
| Encoding.Utf16LossyBasic | src/memory/process.rs:103 | without surrogates, each unit is the character with that number |
| Encoding.Utf16LossyUnpaired | src/memory/process.rs:103 | an unpaired surrogate becomes one U+FFFD, and the unit after it is still decoded |
| Encoding.Utf16Examples | src/memory/process.rs:103 | ASCII, a surrogate pair, a high surrogate before a letter, and a lone low surrogate |
| TypedRead.IntAt | src/memory/process.rs:14-26 | the read succeeds exactly when the call copies; the value is in the type's range; a failure is the mapped errno |
| TypedRead.IntAtStored | src/memory/process.rs:14-26 | reading a fully readable stored value gives that value |
| TypedRead.IntAtPartial | src/memory/process.rs:21-22 | after a short copy the missing high bytes read as zero: an unsigned read gives the prefix's value |
| TypedRead.ReadInt | src/memory/process.rs:14-26 | the method returns what the specification of reading a `T` returns |
| TypedRead.ReadZeroedBuffer | src/memory/process.rs:92-93 | a zero-initialised buffer of `len` bytes read into in place holds the copied prefix then zeros, or the read fails with its mapped error; `Linux.ReadZeroed` states this and `Linux.ReadZeroedTail` the zero tail |
| TypedRead.ByteAtIsU8 | src/memory/process.rs:69 | `read_u8` returns the byte at the address, or that read's error |
| TypedRead.UlebBytes | src/memory/process.rs:68-80 | the bytes the loop consumes from the byte stream `BytesFrom(vm, pid, addr)` form a well-formed encoding that ends within the ten bytes |
| TypedRead.UlebLoopStep | src/memory/process.rs:69-79 | one turn of the loop: a failed read ends the read with its error, a byte without the high bit completes it, and any other byte is added to the bytes consumed so far |
| TypedRead.UlebBytesAreRead | src/memory/process.rs:68-80 | the bytes the loop consumes are those at consecutive addresses of the byte stream; a failure is one of those reads' failure |
| TypedRead.ReadUleb128 | src/memory/process.rs:61-83 | the result is the number the consumed bytes encode, truncated to 64 bits, or the failing read's error |
| TypedRead.UlebBytesOfEncoding | src/memory/process.rs:68-80 | the loop consumes exactly a complete encoding laid out in memory, and stops at its last byte |
| TypedRead.UlebReadsStored | src/memory/process.rs:61-83 | a `u64` stored with the standard encoder reads back as itself |
| TypedRead.StringAt | src/memory/process.rs:85-104 | a successful read has at most as many characters as the stored count; a failed count read is that error |
| TypedRead.StringAtBodyRead | src/memory/process.rs:89-93 | after a good count, the read succeeds exactly when the call for `2 * count` bytes at `addr + 8` copies, and otherwise fails with that call's mapped errno (`BadAddress(addr + 8, 2 * count)` on `EFAULT`) |
| TypedRead.ReadString | src/memory/process.rs:85-104 | the method returns what the specification of reading a string returns |
| TypedRead.StringAtStored | src/memory/process.rs:85-104 | a string stored as its count followed by its UTF-16 units reads back as itself |
| TypedRead.StringAtEmpty | src/memory/process.rs:89-103 | a zero count reads the empty string |

## Left out

- `read_f32` and `read_f64` (src/memory/process.rs:118-119) are not modelled, because they decode floating point.
- The Windows backend is not modelled. Its `HANDLE` and its `u32` pid belong to another platform.
- The body of `find_signature` lives in src/memory/signature.rs, which is not part of this model. `SignatureSearch.FindSignature` states its contract and has a plain search as its body.
- Signatures are carried as patterns. `SignatureNotFound` holds the pattern itself, not its `to_string()` text.
- src/memory/error.rs is not part of this model. The error variants and the conversions from `io::Error`, `ParseIntError` and `Errno` are taken as the constructors `Io`, `ParseInt` and `Os`.
- The filesystem is an input. `read_dir`, `is_dir`, `exists` and `read_to_string` are the fields of `ProcEntry`, `Listing` and `FileRead`. Path formatting and file names are not modelled.
- `process_vm_readv` is an oracle. The model does not say which addresses are mapped, only what one call returns. The byte count it returns is ignored, as in the source. The oracle is assumed to copy nothing, successfully, for a call of zero bytes, as the kernel does for an empty local buffer, and to report EPERM, ESRCH and EFAULT only as those constructors, never as `OtherErrno` with their numbers.
- Linux.Process.ReadRegions: requires every line it reaches to have a `-` in its first word, and to have an end no lower than its start when both parse. A line without the dash panics in an `unwrap` in every build. An end below the start makes `to - from` panic in a debug build; in a release build it wraps to a size near 2^64. The model excludes both inputs.
- Linux.Process.Initialize: carries the same requirement on the maps file of the process it finds.
- TypedRead.ReadUleb128: requires the encoding to end within ten bytes, or a read among the first eleven to fail (`UlebTerminates(BytesFrom(vm, pid, addr), 0)`). An eleventh byte that reads successfully is shifted by 70. That panics in a debug build; in a release build the shift is masked to 6 and the loop goes on reading. The model excludes the input either way. The `|=` is modelled as `+`, which `Encoding.UlebStep` justifies: the two operands occupy disjoint bits.
- TypedRead.ReadString: requires the count to be below 2^31. Otherwise `count * 2` overflows a `u32`. That panics in a debug build; in a release build it wraps and a shorter buffer is read. The model excludes the input either way.
- TypedRead.StringAt: does not model the alignment of the byte buffer seen as `u16`s. It takes the host to be little-endian.
- The target's memory is one fixed function `Syscall` for the whole of an operation. The model assumes the memory does not change between the reads of one operation: the byte reads of `read_uleb128`, the count and body reads of `read_string`, and the per-region reads of `read_signature`. The source reads a live process, which may write to that memory in between.
- Address arithmetic is not truncated to 64 bits: `remote.base + offset`, `addr + 0x4`, `addr + 0x8` and `addr += 1`. Regions and addresses are unbounded naturals.
- The typed reads are one method, `TypedRead.ReadInt`, over an `IntType` parameter, instead of ten macro expansions.
