/** The command-line entry point: detect the marker, size the free space,
    validate the serial against it, orient the payload, inject and verify. */
module Cli {
  import opened Memory
  import opened Endianness
  import opened FreeSpace
  import opened SerialCodec
  import opened Injection

  /** Scan window used by the entry point. */
  const CLI_MAX_SCAN: nat := 64

  datatype AddressError = NegativeAddress

  /** `parse_address`, after the integer literal has been read: negative
      addresses are refused, others kept unchanged. */
  function ParseAddress(v: int): (r: Result<nat, AddressError>)
    ensures r.Ok? <==> v >= 0
    ensures r.Ok? ==> r.value == v
  {
    if v < 0 then Err(NegativeAddress) else Ok(v)
  }

  /** The parsed command line. `paddingBytes` is accepted but never used. */
  datatype CliArgs = CliArgs(serial: string, address: nat, paddingBytes: int)

  /** Why the entry point stops before writing anything. */
  datatype RunError = MarkerNotFound | NoFreeSpace | InvalidSerial(reason: SerialError)

  datatype RunOutcome = Aborted(error: RunError) | Completed(result: InjectOutcome)

  /** Free space after the marker as the entry point measures it: from
      `address + 2`, default padding, a 64-byte window. */
  function AvailableSpace(img: Image, address: nat): (n: nat)
    ensures n <= CLI_MAX_SCAN
    ensures IsScanResult(img, address + 2, DEFAULT_PADDING, CLI_MAX_SCAN, n)
  {
    FreeSpaceLen(img, address + 2, DEFAULT_PADDING, CLI_MAX_SCAN)
  }

  /** Payload byte order for the detected endianness. */
  function Orient(endian: Endian, bytes: seq<Byte>): (r: seq<Byte>)
    ensures |r| == |bytes|
  {
    if endian == Little then Reverse(bytes) else bytes
  }

  /** Orienting twice gives the serial bytes back. */
  lemma OrientInvolution(endian: Endian, bytes: seq<Byte>)
    ensures Orient(endian, Orient(endian, bytes)) == bytes
  {
    ReverseInvolution(bytes);
  }

  /** Steps before the write: the bytes to inject, or why the run stops.
      The first two exits depend only on the image; an accepted payload
      fits the free space counted. */
  function Payload(img: Image, args: CliArgs): (r: Result<seq<Byte>, RunError>)
    ensures r == Err(MarkerNotFound) <==> Detect(img, args.address, MARKER_VALUE, 2) == None
    ensures r == Err(NoFreeSpace) <==>
      Detect(img, args.address, MARKER_VALUE, 2).Some? && AvailableSpace(img, args.address) == 0
    ensures r.Ok? ==> 0 < 2 * |r.value| <= AvailableSpace(img, args.address)
  {
    match Detect(img, args.address, MARKER_VALUE, 2)
    case None => Err(MarkerNotFound)
    case Some(endian) =>
      var maxLen := AvailableSpace(img, args.address);
      if maxLen == 0 then Err(NoFreeSpace)
      else
        match ParseSerial(args.serial, maxLen)
        case Err(e) => Err(InvalidSerial(e))
        case Ok(serialBytes) => Ok(Orient(endian, serialBytes))
  }

  /** The in-memory image the entry point writes, or why it stops first:
      it stops exactly when the payload is refused, with the same reason,
      and otherwise the payload is stored from the marker address. */
  function Pipeline(img: Image, args: CliArgs): (r: Result<Image, RunError>)
    ensures r.Err? <==> Payload(img, args).Err?
    ensures r.Err? ==> r.error == Payload(img, args).error
    ensures r.Ok? ==> StoredAt(r.value, args.address, Payload(img, args).value)
  {
    match Payload(img, args)
    case Err(e) => Err(e)
    case Ok(payload) => Ok(Inject(img, args.address, payload))
  }

  /** No marker at the address: the run stops before any write. */
  lemma AbortsWithoutMarker(img: Image, args: CliArgs)
    requires Detect(img, args.address, MARKER_VALUE, 2) == None
    ensures Pipeline(img, args) == Err(MarkerNotFound)
  {
  }

  /** A marker but no free space after it: the run stops before any write. */
  lemma AbortsWithoutSpace(img: Image, args: CliArgs)
    requires Detect(img, args.address, MARKER_VALUE, 2).Some?
    requires AvailableSpace(img, args.address) == 0
    ensures Pipeline(img, args) == Err(NoFreeSpace)
  {
  }

  /** A marker and free space, but a serial the validation refuses: the run
      stops with the validation's reason before any write. */
  lemma AbortsOnInvalidSerial(img: Image, args: CliArgs, e: SerialError)
    requires Detect(img, args.address, MARKER_VALUE, 2).Some?
    requires AvailableSpace(img, args.address) > 0
    requires ParseSerial(args.serial, AvailableSpace(img, args.address)) == Err(e)
    ensures Pipeline(img, args) == Err(InvalidSerial(e))
  {
  }

  /** A marker, free space and an accepted serial: the run injects the
      serial's bytes in the detected byte order at the marker address. */
  lemma InjectsAcceptedSerial(img: Image, args: CliArgs)
    requires Detect(img, args.address, MARKER_VALUE, 2).Some?
    requires AvailableSpace(img, args.address) > 0
    requires ParseSerial(args.serial, AvailableSpace(img, args.address)).Ok?
    ensures Payload(img, args) == Ok(Orient(Detect(img, args.address, MARKER_VALUE, 2).value,
                                            ParseSerial(args.serial, AvailableSpace(img, args.address)).value))
    ensures Pipeline(img, args) == Ok(Inject(img, args.address, Payload(img, args).value))
  {
  }

  /** What an accepted run injects: the serial's bytes, reversed exactly
      when the marker is stored little-endian, with at most half as many
      bytes as the free space counted (the hex-character count is bounded
      by the byte count). */
  lemma PayloadShape(img: Image, args: CliArgs)
    requires Payload(img, args).Ok?
    ensures var e := Detect(img, args.address, MARKER_VALUE, 2);
            var s := ParseSerial(args.serial, AvailableSpace(img, args.address));
            e.Some? && s.Ok? &&
            (e.value == Big ==> Payload(img, args).value == s.value) &&
            (e.value == Little ==> Payload(img, args).value == Reverse(s.value)) &&
            Orient(e.value, Payload(img, args).value) == s.value
    ensures 0 < 2 * |Payload(img, args).value| <= AvailableSpace(img, args.address) <= CLI_MAX_SCAN
  {
    var e := Detect(img, args.address, MARKER_VALUE, 2);
    var s := ParseSerial(args.serial, AvailableSpace(img, args.address));
    OrientInvolution(e.value, s.value);
  }

  /** An accepted run writes the payload starting at the marker address
      itself, so the marker's first byte is overwritten; nothing outside
      `address .. address + |payload| - 1` changes. */
  lemma WritesAtMarker(img: Image, args: CliArgs)
    requires Payload(img, args).Ok?
    ensures Pipeline(img, args).Ok?
    ensures StoredAt(Pipeline(img, args).value, args.address, Payload(img, args).value)
    ensures Lookup(Pipeline(img, args).value, args.address) == Some(Payload(img, args).value[0])
    ensures forall a: nat :: (a < args.address || args.address + |Payload(img, args).value| <= a) ==>
      Lookup(Pipeline(img, args).value, a) == Lookup(img, a)
  {
  }

  /** The `--padding_bytes` option has no effect on the run. */
  lemma PaddingOptionIgnored(img: Image, args: CliArgs, padding: int)
    ensures Pipeline(img, args) == Pipeline(img, args.(paddingBytes := padding))
  {
  }

  /** `main` after argument parsing and loading: the steps in order, with
      the early exits, then the in-place injection and its verification. */
  method Run(ih: HexImage, args: CliArgs, persist: Image -> PersistResult) returns (outcome: RunOutcome)
    modifies ih
    ensures Payload(old(ih.cells), args).Err? ==>
      outcome == Aborted(Payload(old(ih.cells), args).error) && ih.cells == old(ih.cells)
    ensures Payload(old(ih.cells), args).Ok? ==>
      ih.cells == Pipeline(old(ih.cells), args).value &&
      outcome == Completed(VerifyOutcome(persist(ih.cells), args.address, Payload(old(ih.cells), args).value))
  {
    var endian := Detect(ih.cells, args.address, MARKER_VALUE, 2);
    if endian == None {
      return Aborted(MarkerNotFound);
    }
    var payloadStart := args.address + 2;
    var maxLen := MaxPayloadLen(ih, payloadStart, DEFAULT_PADDING, CLI_MAX_SCAN);
    if maxLen == 0 {
      return Aborted(NoFreeSpace);
    }
    var serialBytes := ParseSerial(args.serial, maxLen);
    if serialBytes.Err? {
      return Aborted(InvalidSerial(serialBytes.error));
    }
    var endianSerialBytes := serialBytes.value;
    if endian.value == Little {
      endianSerialBytes := Reverse(serialBytes.value);
    }
    var result := InjectAndVerifySerial(ih, args.address, endianSerialBytes, persist);
    outcome := Completed(result);
  }

  /** An image with a two-byte marker at 0x2000 followed by `free` padding
      bytes, nothing else mapped. */
  function ExampleImage(m0: Byte, m1: Byte, free: nat): Image
  {
    map a: nat | 0x2000 <= a < 0x2002 + free :: ExampleByte(m0, m1, a)
  }

  function ExampleByte(m0: Byte, m1: Byte, a: nat): Byte
  {
    if a == 0x2000 then m0 else if a == 0x2001 then m1 else 0
  }

  lemma ExampleSpace(m0: Byte, m1: Byte, free: nat)
    requires free <= CLI_MAX_SCAN
    ensures AvailableSpace(ExampleImage(m0, m1, free), 0x2000) == free
  {
    var img := ExampleImage(m0, m1, free);
    PaddingRun(img, 0x2002, DEFAULT_PADDING, CLI_MAX_SCAN, free);
  }

  // The examples below take the serial as a parameter fixed by a
  // precondition rather than as a literal, so that the verifier unfolds
  // the recursive string functions only as far as each step asks.

  /** Big-endian marker with four free bytes: the eight-character serial
      `A1B2C3D4` is refused as too long, since the entry point bounds the
      hex-character count by the byte count. */
  lemma ExampleFourFreeBytes(serial: string)
    requires serial == "A1B2C3D4"
    ensures Pipeline(ExampleImage(0xAA, 0x55, 4), CliArgs(serial, 0x2000, 0)) == Err(InvalidSerial(TooLong))
  {
    var img := ExampleImage(0xAA, 0x55, 4);
    DetectDefaultMarker(img, 0x2000);
    ExampleSpace(0xAA, 0x55, 4);
    DecodeExample(serial);
    CleanKeepsHex(serial);
  }

  /** Big-endian marker with eight free bytes: `A1 B2 C3 D4` is written
      from the marker address on, replacing the marker. */
  lemma ExampleBigEndian(serial: string)
    requires serial == "A1B2C3D4"
    ensures var r := Pipeline(ExampleImage(0xAA, 0x55, 8), CliArgs(serial, 0x2000, 0));
      r.Ok? && StoredAt(r.value, 0x2000, [0xA1, 0xB2, 0xC3, 0xD4]) && Lookup(r.value, 0x2004) == Some(0)
  {
    var img := ExampleImage(0xAA, 0x55, 8);
    var args := CliArgs(serial, 0x2000, 0);
    DetectDefaultMarker(img, 0x2000);
    assert Detect(img, 0x2000, MARKER_VALUE, 2) == Some(Big);
    ExampleSpace(0xAA, 0x55, 8);
    DecodeExample(serial);
    AcceptsValidHex(serial, 8);
    var bytes: seq<Byte> := [0xA1, 0xB2, 0xC3, 0xD4];
    assert ParseSerial(serial, 8) == Ok(bytes);
    assert Payload(img, args) == Ok(bytes);
  }

  /** Little-endian marker: the same serial is written reversed,
      `D4 C3 B2 A1`. */
  lemma ExampleLittleEndian(serial: string)
    requires serial == "A1B2C3D4"
    ensures var r := Pipeline(ExampleImage(0x55, 0xAA, 8), CliArgs(serial, 0x2000, 0));
      r.Ok? && StoredAt(r.value, 0x2000, [0xD4, 0xC3, 0xB2, 0xA1])
  {
    var img := ExampleImage(0x55, 0xAA, 8);
    var args := CliArgs(serial, 0x2000, 0);
    DetectDefaultMarker(img, 0x2000);
    assert Detect(img, 0x2000, MARKER_VALUE, 2) == Some(Little);
    ExampleSpace(0x55, 0xAA, 8);
    DecodeExample(serial);
    AcceptsValidHex(serial, 8);
    var b: seq<Byte> := [0xA1, 0xB2, 0xC3, 0xD4];
    assert ParseSerial(serial, 8) == Ok(b);
    ReverseExample(b);
    assert Payload(img, args) == Ok([0xD4, 0xC3, 0xB2, 0xA1]);
  }

  lemma ReverseExample(b: seq<Byte>)
    requires b == [0xA1, 0xB2, 0xC3, 0xD4]
    ensures Reverse(b) == [0xD4, 0xC3, 0xB2, 0xA1]
  {
    ReverseAt(b, 0);
    ReverseAt(b, 1);
    ReverseAt(b, 2);
    ReverseAt(b, 3);
  }
}
