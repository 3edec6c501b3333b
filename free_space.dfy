/** Free-space scan: how many bytes after the marker are available for the
    serial payload. */
module FreeSpace {
  import opened Memory

  /** Width of the marker; the first MARKER_LEN scanned offsets are counted
      whatever they hold. */
  const MARKER_LEN: nat := 2
  const DEFAULT_PADDING: int := 0x00

  /** Offset `i` from `start` is counted by the scan: mapped, and padding
      unless it lies in the exempt marker window. */
  predicate Counted(img: Image, start: nat, padding: int, i: nat)
  {
    start + i in img && (i >= MARKER_LEN ==> img[start + i] == padding)
  }

  /** `n` is the answer the scan must give: every offset below `n` is
      counted, and the scan stopped at `n` because the window ended or
      offset `n` is not counted. */
  predicate IsScanResult(img: Image, start: nat, padding: int, maxScan: nat, n: nat)
  {
    n <= maxScan &&
    (forall i: nat :: i < n ==> Counted(img, start, padding, i)) &&
    (n < maxScan ==> !Counted(img, start, padding, n))
  }

  /** The scan continued from offset `i`. */
  function ScanFrom(img: Image, start: nat, padding: int, maxScan: nat, i: nat): (r: nat)
    requires i <= maxScan
    ensures i <= r <= maxScan
    ensures forall k: nat :: i <= k < r ==> Counted(img, start, padding, k)
    ensures r < maxScan ==> !Counted(img, start, padding, r)
    decreases maxScan - i
  {
    if i == maxScan then i
    else if !Counted(img, start, padding, i) then i
    else ScanFrom(img, start, padding, maxScan, i + 1)
  }

  /** Length of the free region found by `get_max_payload_len`. */
  function FreeSpaceLen(img: Image, start: nat, padding: int, maxScan: nat): (n: nat)
    ensures IsScanResult(img, start, padding, maxScan, n)
  {
    ScanFrom(img, start, padding, maxScan, 0)
  }

  /** The scan's answer is the only one that satisfies IsScanResult. */
  lemma ScanResultUnique(img: Image, start: nat, padding: int, maxScan: nat, n: nat)
    requires IsScanResult(img, start, padding, maxScan, n)
    ensures n == FreeSpaceLen(img, start, padding, maxScan)
  {
  }

  /** A run of `k` padding bytes that ends at a hole, at a non-padding byte
      past the marker window, or at the end of the window, has length `k`. */
  lemma PaddingRun(img: Image, start: nat, padding: int, maxScan: nat, k: nat)
    requires k <= maxScan
    requires forall a: nat :: start <= a < start + k ==> Lookup(img, a) == Some(padding)
    requires k == maxScan || start + k !in img || (k >= MARKER_LEN && img[start + k] != padding)
    ensures FreeSpaceLen(img, start, padding, maxScan) == k
  {
    forall i: nat | i < k ensures Counted(img, start, padding, i) {
      assert Lookup(img, start + i) == Some(padding);
    }
    ScanResultUnique(img, start, padding, maxScan, k);
  }

  /** The marker-window exemption: the first MARKER_LEN offsets count when
      mapped, even if they hold something other than padding. */
  lemma MarkerWindowExempt(img: Image, start: nat, padding: int, maxScan: nat)
    requires maxScan >= MARKER_LEN
    requires start in img && start + 1 in img
    ensures FreeSpaceLen(img, start, padding, maxScan) >= MARKER_LEN
  {
  }

  /** `get_max_payload_len`: the counting loop with its two early exits. */
  method MaxPayloadLen(ih: HexImage, startAddr: nat, paddingByte: int, maxScan: nat) returns (length: nat)
    ensures length == FreeSpaceLen(ih.cells, startAddr, paddingByte, maxScan)
    ensures IsScanResult(ih.cells, startAddr, paddingByte, maxScan, length)
  {
    length := 0;
    var i: nat := 0;
    while i < maxScan
      invariant i <= maxScan
      invariant length == i
      invariant ScanFrom(ih.cells, startAddr, paddingByte, maxScan, i) ==
                FreeSpaceLen(ih.cells, startAddr, paddingByte, maxScan)
    {
      var addr := startAddr + i;
      if addr !in ih.cells {
        break;
      }
      var b := ih.cells[addr];
      if i >= MARKER_LEN && b != paddingByte {
        break;
      }
      length := length + 1;
      i := i + 1;
    }
  }
}
