/** Marker detection: is the marker stored at an address, and in which byte
    order? */
module Endianness {
  import opened Memory

  datatype Endian = Big | Little

  /** Default marker value and width. */
  const MARKER_VALUE: nat := 0xAA55
  const DEFAULT_MARKER_LEN: nat := 2

  function Pow256(n: nat): (r: nat)
    ensures r >= 1
  {
    if n == 0 then 1 else 256 * Pow256(n - 1)
  }

  /** Value of a big-endian byte string. */
  function FromBytesBig(s: seq<Byte>): (r: nat)
    ensures r < Pow256(|s|)
  {
    if s == [] then 0
    else
      var hi := FromBytesBig(s[..|s| - 1]);
      assert hi * 256 + s[|s| - 1] < (hi + 1) * 256;
      assert hi + 1 <= Pow256(|s| - 1);
      hi * 256 + s[|s| - 1]
  }

  /** `value.to_bytes(len, "big")`; a value that does not fit is refused by
      the caller's precondition (the source raises). */
  function ToBytesBig(value: nat, len: nat): (r: seq<Byte>)
    requires value < Pow256(len)
    ensures |r| == len
    ensures FromBytesBig(r) == value
  {
    if len == 0 then []
    else
      var hi := ToBytesBig(value / 256, len - 1);
      var r := hi + [value % 256];
      assert r[..|r| - 1] == hi;
      r
  }

  /** The other direction of the round trip: any byte string is the
      big-endian encoding of its own value. */
  lemma {:induction false} ToBytesBigOfValue(s: seq<Byte>)
    ensures ToBytesBig(FromBytesBig(s), |s|) == s
  {
    if s != [] {
      var init := s[..|s| - 1];
      ToBytesBigOfValue(init);
      var v := FromBytesBig(s);
      assert v / 256 == FromBytesBig(init);
      assert v % 256 == s[|s| - 1];
      assert s == init + [s[|s| - 1]];
    }
  }

  /** Reading `n` consecutive bytes; any unmapped address gives `None`. */
  function ReadBytes(img: Image, address: nat, n: nat): (r: Option<seq<Byte>>)
    ensures r.Some? <==> forall a: nat :: address <= a < address + n ==> a in img
    ensures r.Some? ==> |r.value| == n && StoredAt(img, address, r.value)
  {
    if n == 0 then Some([])
    else
      match ReadBytes(img, address, n - 1)
      case None => None
      case Some(prefix) =>
        if address + n - 1 in img then Some(prefix + [img[address + n - 1]]) else None
  }

  /** Bytes read at `address` equal `enc` exactly when `enc` is stored there. */
  lemma ReadBytesMatches(img: Image, address: nat, enc: seq<Byte>)
    ensures ReadBytes(img, address, |enc|) == Some(enc) <==> StoredAt(img, address, enc)
  {
    var r := ReadBytes(img, address, |enc|);
    if StoredAt(img, address, enc) {
      forall a: nat | address <= a < address + |enc| ensures a in img {
        assert Lookup(img, a) == Some(enc[a - address]);
      }
      assert r.Some?;
      forall k | 0 <= k < |enc| ensures r.value[k] == enc[k] {
        assert Lookup(img, address + k) == Some(r.value[k]);
        assert Lookup(img, address + k) == Some(enc[k]);
      }
      assert r.value == enc;
    }
  }

  /** `detect_endianness`: `Some(Big)` when the big-endian encoding of the
      marker is stored at `address`, `Some(Little)` when only its reverse is,
      `None` otherwise (including any unmapped address in the window). */
  function Detect(img: Image, address: nat, markerValue: nat, markerLen: nat): (r: Option<Endian>)
    requires markerValue < Pow256(markerLen)
    ensures r == Some(Big) <==> StoredAt(img, address, ToBytesBig(markerValue, markerLen))
    ensures r == Some(Little) <==>
      !StoredAt(img, address, ToBytesBig(markerValue, markerLen)) &&
      StoredAt(img, address, Reverse(ToBytesBig(markerValue, markerLen)))
    ensures (exists a: nat :: address <= a < address + markerLen && a !in img) ==> r == None
  {
    var bigEn := ToBytesBig(markerValue, markerLen);
    var littleEn := Reverse(bigEn);
    ReadBytesMatches(img, address, bigEn);
    ReadBytesMatches(img, address, littleEn);
    match ReadBytes(img, address, markerLen)
    case None => None
    case Some(result) =>
      if result == bigEn then Some(Big)
      else if result == littleEn then Some(Little)
      else None
  }

  lemma MarkerEncoding()
    ensures ToBytesBig(MARKER_VALUE, DEFAULT_MARKER_LEN) == [0xAA, 0x55]
    ensures Reverse(ToBytesBig(MARKER_VALUE, DEFAULT_MARKER_LEN)) == [0x55, 0xAA]
  {
  }

  /** With the default marker: `AA 55` is big-endian, `55 AA` little-endian,
      anything else (or a hole) is no marker. */
  lemma DetectDefaultMarker(img: Image, address: nat)
    ensures Detect(img, address, MARKER_VALUE, DEFAULT_MARKER_LEN) == Some(Big) <==>
      Lookup(img, address) == Some(0xAA) && Lookup(img, address + 1) == Some(0x55)
    ensures Detect(img, address, MARKER_VALUE, DEFAULT_MARKER_LEN) == Some(Little) <==>
      Lookup(img, address) == Some(0x55) && Lookup(img, address + 1) == Some(0xAA)
  {
    MarkerEncoding();
    var big: seq<Byte> := [0xAA, 0x55];
    var little: seq<Byte> := [0x55, 0xAA];
    if Lookup(img, address) == Some(0xAA) && Lookup(img, address + 1) == Some(0x55) {
      assert StoredAt(img, address, big);
    }
    if Lookup(img, address) == Some(0x55) && Lookup(img, address + 1) == Some(0xAA) {
      assert StoredAt(img, address, little);
    }
    if StoredAt(img, address, big) {
      assert Lookup(img, address + 1) == Some(big[1]);
    }
    if StoredAt(img, address, little) {
      assert Lookup(img, address + 1) == Some(little[1]);
    }
  }
}
