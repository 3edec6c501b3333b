# Hex injector: marker-guided serial injection, modelled in Dafny

This project models the core of a firmware hex-image patcher. The patcher
writes a serial number into a memory image at a known address. A two-byte
marker (`0xAA55`) stored at that address says that the site exists and in
which byte order the image stores it. The model covers five steps:

- **Marker detection** (`Endianness`). Read the marker window and compare it
  with the big-endian encoding of the marker and with its reverse.
- **Free-space scan** (`FreeSpace`). Count the bytes available after the
  marker.
- **Serial validation and decoding** (`SerialCodec`). Strip a `0x` prefix,
  remove spaces and hyphens, check the rules in order, and decode the hex
  pairs.
- **Injection and verification** (`Injection`). Write the payload in place,
  persist and reload the image, and collect every byte that did not read
  back.
- **The command-line pipeline** (`Cli`). Chain the steps above, with early
  exits.

The memory image is a sparse `map<nat, Byte>`. An address that is not a key
is *unmapped*, which is different from holding 0. The image object that the
workflow mutates is the class `Memory.HexImage`. The scan and the write loop
are methods over that object. Each method is proved equal to a pure function
(`FreeSpaceLen`, `Inject`, `Mismatches`), and the lemmas state their
properties. Persisting the image and reloading it from disk is a function
parameter `persist: Image -> PersistResult`. The caller chooses it, for
example the identity (`FaithfulPersistVerifies`).

Three behaviours of the code look unintended. The model keeps them as
written:

- The serial's hex-character count is bounded by the free-space *byte*
  count (`max_chars = max_len`, injector/main.py:49), not by twice that. With
  four free bytes, the eight-character serial `A1B2C3D4` is rejected as too
  long (`Cli.ExampleFourFreeBytes`).
- The scan counts the first two offsets whatever they hold, even though it
  already starts after the marker (injector/injector.py:153,
  `FreeSpace.MarkerWindowExempt`).
- The `--padding_bytes` option is parsed but never passed to the scan, which
  always uses 0x00 (`Cli.PaddingOptionIgnored`).

The payload is written at the marker address itself (injector/main.py:64),
so it replaces the marker rather than following it at `address + 2`
(`Cli.WritesAtMarker`, `Cli.ExampleBigEndian`). This is the behaviour the
repository's test `test_injection_replaces_placeholder` expects: it checks
for 0xA1 at the address 0x2000 (tests/test_injector.py:15-32).

## Model

| member | source | states |
|---|---|---|
| `Memory.Lookup` | injector/injector.py:61-64 | reading an address gives a byte iff the address is mapped, and then the stored byte; an unmapped address gives None where the source's reads (also at injector/injector.py:146-150 and 192-196) raise `KeyError` |
| `Memory.Reverse` | injector/main.py:54 | the `[::-1]` slice (also injector/injector.py:57) keeps the length; ReverseAt fixes every element |
| `Memory.ReverseAt` | injector/injector.py:57 | element k of a reversed sequence is element n-1-k of the original |
| `Memory.ReverseInvolution` | injector/main.py:52-54 | reversing the payload twice gives it back |
| `Endianness.ToBytesBig` | injector/injector.py:56 | `to_bytes(len, "big")` gives exactly `len` bytes whose big-endian value is the marker value |
| `Endianness.ToBytesBigOfValue` | injector/injector.py:56 | the other direction of the round trip: every byte string is the big-endian encoding of its own value |
| `Endianness.ReadBytes` | injector/injector.py:60-64 | reading `n` bytes succeeds iff every address in the window is mapped, and then returns exactly the stored bytes |
| `Endianness.ReadBytesMatches` | injector/injector.py:61-66 | the bytes read equal an encoding iff that encoding is stored at the address |
| `Endianness.Detect` | injector/injector.py:38-71 | "big" iff the big-endian encoding is stored at the address (big wins when both encodings coincide); "little" iff it is not but its reverse is; None if any address in the window is unmapped or neither matches; the image is an input value, so detection cannot change it |
| `Endianness.MarkerEncoding` | injector/injector.py:56-57 | the default marker 0xAA55 encodes as `AA 55` big-endian and `55 AA` reversed |
| `Endianness.DetectDefaultMarker` | injector/injector.py:56-69 | with the default marker, `AA 55` at the address gives big and `55 AA` gives little, each as an iff |
| `FreeSpace.ScanFrom` | injector/injector.py:144-155 | the scan from offset i stops within the window, counts only offsets that are mapped and padding (or inside the marker window), and stops only at the window's end or at an offset that fails that test |
| `FreeSpace.FreeSpaceLen` | injector/injector.py:131-156 | the count n satisfies IsScanResult: n <= max_scan; every offset below n is mapped and, from MARKER_LEN on, padding; if n < max_scan then offset n is unmapped, or n >= MARKER_LEN and it is not padding |
| `FreeSpace.ScanResultUnique` | injector/injector.py:143-156 | IsScanResult has exactly one solution, the scan's count |
| `FreeSpace.PaddingRun` | injector/injector.py:143-156 | a run of k padding bytes ending at a hole, at a non-padding byte past the marker window, or at the window's end gives k; this covers a hole at the first address (0) and a fully padded window (max_scan) |
| `FreeSpace.MarkerWindowExempt` | injector/injector.py:153 | when the first two offsets are mapped, they are counted whatever they hold |
| `FreeSpace.MaxPayloadLen` | injector/injector.py:131-156 | the loop with its two early exits returns FreeSpaceLen, so the count satisfies IsScanResult |
| `SerialCodec.IsValidSerial` | injector/injector.py:73-75 | true iff the string is non-empty and every character is in `[0-9a-fA-F]` |
| `SerialCodec.ValidSerialExamples` | tests/test_parsing.py:5-8 | "ABC123" and "A1B2C3D4" are valid; "G12345" and "A1 B2" are not |
| `SerialCodec.StripHexPrefix` | injector/injector.py:96-97 | the result is the string itself or the string without its first two characters |
| `SerialCodec.RemoveSeparators` | injector/injector.py:98 | the result holds no space or hyphen, and a string without them is unchanged |
| `SerialCodec.RemoveSeparatorsKeeps` | injector/injector.py:98 | every other character keeps its number of occurrences |
| `SerialCodec.RemoveSeparatorsInOrder` | injector/injector.py:98 | removal distributes over concatenation, so the kept characters stay in their order |
| `SerialCodec.RemoveSeparatorsSingle` | injector/injector.py:98 | a single character is kept iff it is not a space or hyphen |
| `SerialCodec.Clean` | injector/injector.py:96-98 | the cleaned string holds no space or hyphen |
| `SerialCodec.CleanPrefix` | injector/injector.py:96-98 | `0x` and `0X` followed by t clean to t without separators; a string without that prefix only loses its separators |
| `SerialCodec.CleanKeepsHex` | injector/injector.py:96-98 | prefix stripping and separator removal leave a string of hex digits unchanged |
| `SerialCodec.ToUpper` | injector/injector.py:124 | `.upper()` keeps the length and upper-cases each character (`a`-`f` to `A`-`F` on hex digits) |
| `SerialCodec.DecodeHex` | injector/injector.py:117-118 | an even-length hex string decodes to half as many bytes; byte k is the value of digits 2k and 2k+1 |
| `SerialCodec.EncodeHexUpper` | injector/injector.py:124 | the upper-case hex rendering has two hex digits per byte |
| `SerialCodec.DecodeEncode` | injector/injector.py:118-124 | decoding the upper-case rendering of any bytes gives the bytes back |
| `SerialCodec.EncodeDecode` | injector/injector.py:118-124 | rendering the decoded bytes gives the validated string upper-cased |
| `SerialCodec.ParseSerial` | injector/injector.py:96-118 | after the prefix and separators go, the first failing rule is reported, in order (empty, longer than max_chars, odd length, non-hex character), each as an iff; on success the payload is non-empty, has half as many bytes as the cleaned string, at most max_chars/2, and renders back to the cleaned string upper-cased |
| `SerialCodec.AcceptsValidHex` | injector/injector.py:100-118 | every non-empty, even-length hex string within the bound is accepted and decoded |
| `SerialCodec.ParseSerialExample` | injector/injector.py:96-118 | "0xA1-B2 c3D4" is accepted as the bytes A1 B2 C3 D4 |
| `SerialCodec.ParseSerialRejections` | injector/injector.py:100-115 | sample inputs are rejected as too long, odd length, invalid character and empty |
| `Injection.InjectPrefix` | injector/injector.py:176-177 | after k iterations of the write loop, data[0..k) is stored from the address and every other address reads as before |
| `Injection.Inject` | injector/injector.py:176-177 | after the write loop, `image[address+i] == data[i]` for every i, and every other address keeps its prior mapping, mapped or unmapped |
| `Injection.MismatchesUpTo` | injector/injector.py:189-198 | after k iterations of the check loop the list has at most k entries, each at one of the first k payload addresses |
| `Injection.Mismatches` | injector/injector.py:189-198 | the finished `unexpected_bytes` list has at most one entry per payload byte, each at a payload address |
| `Injection.MismatchesSound` | injector/injector.py:189-198 | every listed mismatch is a payload address whose reloaded value (None if unmapped) differs from the byte written, reported with that byte and that value |
| `Injection.MismatchesComplete` | injector/injector.py:189-198 | every payload byte that does not read back is listed with its address, expected byte and actual value |
| `Injection.MismatchesOrdered` | injector/injector.py:190-198 | mismatches appear in payload order (strictly increasing addresses) |
| `Injection.MismatchesEmptyIff` | injector/injector.py:189-201 | no mismatch iff every payload address is mapped in the reloaded image and holds the byte written |
| `Injection.VerifyOutcome` | injector/injector.py:178-204 | a write failure gives WriteFailure and a reload failure gives ReloadFailure, each as an iff; the outcome is success iff the reload succeeded and the whole payload reads back; a reloaded image that does not read back gives VerificationFailure with exactly the mismatch list, which is then non-empty |
| `Injection.FaithfulPersistVerifies` | injector/injector.py:176-204 | when the reload returns exactly the written image, the injection verifies |
| `Injection.CollectMismatches` | injector/injector.py:189-198 | the check loop builds exactly the mismatch list |
| `Injection.InjectAndVerifySerial` | injector/injector.py:159-204 | the image object ends up as Inject of its old contents, and the outcome is the verdict on the persisted-and-reloaded image |
| `Injection.InjectionTestExample` | tests/test_injector.py:20-32 | A1 B2 C3 D4 injected at 0x2000 into an empty image reads back at 0x2000..0x2003 and verifies |
| `Cli.ParseAddress` | injector/main.py:14-16 | a negative address is refused; a non-negative one is returned unchanged |
| `Cli.AvailableSpace` | injector/main.py:39-41 | the free space is the scan result (IsScanResult) from address + 2 with padding 0x00 and a 64-byte window, so it is at most 64 |
| `Cli.Orient` | injector/main.py:52-54 | orienting the payload keeps its length |
| `Cli.OrientInvolution` | injector/main.py:52-54 | orienting twice gives the serial bytes back |
| `Cli.Payload` | injector/main.py:34-54 | MarkerNotFound iff no marker is detected; NoFreeSpace iff a marker is detected and the scan gives 0; an accepted payload is non-empty and 2·len fits the free-space count |
| `Cli.Pipeline` | injector/main.py:34-64 | the run stops iff the payload is refused, with the same reason; otherwise the resulting image stores the payload from the marker address |
| `Cli.AbortsWithoutMarker` | injector/main.py:34-37 | without a detected marker, the run stops with MarkerNotFound and produces no image |
| `Cli.AbortsWithoutSpace` | injector/main.py:41-45 | with a marker but a scan result of 0, the run stops with NoFreeSpace and produces no image |
| `Cli.AbortsOnInvalidSerial` | injector/main.py:49 | with a marker and free space, a serial refused for reason e stops the run with InvalidSerial(e) before any write |
| `Cli.InjectsAcceptedSerial` | injector/main.py:49-64 | with a marker, free space and an accepted serial, the payload is the serial's bytes in the detected order and the image is Inject of it at the marker address |
| `Cli.PayloadShape` | injector/main.py:49-54 | an accepted payload is the parsed serial for a big-endian marker and its reverse for a little-endian one; 0 < 2·len(payload) <= free space <= 64 |
| `Cli.WritesAtMarker` | injector/main.py:64 | the payload is stored from the marker address itself (the marker's first byte becomes payload[0]); addresses outside that range are unchanged |
| `Cli.PaddingOptionIgnored` | injector/main.py:26-41 | the result does not depend on the `--padding_bytes` value |
| `Cli.Run` | injector/main.py:32-64 | the entry point stops with the pipeline's error and leaves the image untouched, or writes exactly the pipeline's image and reports the verdict on its persisted copy |
| `Cli.ExampleFourFreeBytes` | injector/main.py:41-49 | big-endian marker at 0x2000 with four free bytes: "A1B2C3D4" is refused as too long |
| `Cli.ExampleBigEndian` | injector/main.py:34-64 | big-endian marker with eight free bytes: A1 B2 C3 D4 is written at 0x2000..0x2003, replacing the marker |
| `Cli.ExampleLittleEndian` | injector/main.py:52-64 | little-endian marker: the same serial is written as D4 C3 B2 A1 from 0x2000 |

## Left out

- Loading and writing Intel HEX files (`load_hex_file`, `write_hex_file`, `loadhex`). These are the external image library and the file encoding. Persisting and reloading is the parameter `persist`, and its write and reload failures are the outcomes `WriteFailure` and `ReloadFailure`.
- The timestamped backup copy made on load (injector/injector.py:24-36). This is file I/O only.
- The image library's own behaviour when an unmapped address is read. The model follows the code's `KeyError` handlers: such a read fails. If the library returned a fill value instead, those branches would never run.
- The interactive part of `parse_serial`: re-prompting with `input()`, the y/N confirmation and the messages (injector/injector.py:94-95, 101-129).
- Cli.Run: stops with `InvalidSerial` where the source asks the operator again, because operator input is not modelled.
- The `$` anchor of the serial pattern (injector/injector.py:10), which also matches before one trailing newline. `IsValidSerial` requires every character to be a hex digit. So for a serial such as `A1B` followed by a newline (even length, accepted by the pattern), the source reaches the `bytes.fromhex` error branch (injector/injector.py:117-122) and asks again, where the model reports `InvalidCharacter`. Both refuse the serial; no string with a trailing newline is accepted by either.
- Injection.VerifyOutcome: a verification failure carries the list of mismatching bytes, which the source builds (injector/injector.py:189-198) but does not report: it raises `RuntimeError("Verification failed.")` without it (injector/injector.py:201-202). The write and reload failures likewise stand for the source's `RuntimeError`s without their messages.
- Endianness.Detect: requires that the marker value fits in `marker_len` bytes, because the source raises an overflow error there.
- The argument parser, `sys.exit`, and the "planned changes" and success listings in `main` (injector/main.py:22-29, 56-62, 66-71).
- The integer-literal grammar of `int(s, 0)` in `parse_address`. Only the non-negativity check is modelled.
- The subprocess test of the help text (tests/test_cli.py).
