/** The sparse memory image the injector works on, and the small value types
    shared by every component.

    An image maps addresses to bytes. An address that is not a key of the map
    is *unmapped*, which is different from an address that holds 0. */
module Memory {

  type Byte = b: int | 0 <= b < 256

  /** Sparse address -> byte mapping of one firmware image. */
  type Image = map<nat, Byte>

  datatype Option<+T> = None | Some(value: T)

  datatype Result<+T, +E> = Ok(value: T) | Err(error: E)

  /** Reading one address: `Some(byte)` when mapped, `None` when the image
      library would raise its "address absent" error. */
  function Lookup(img: Image, addr: nat): (r: Option<Byte>)
    ensures r.Some? <==> addr in img
    ensures r.Some? ==> r.value == img[addr]
  {
    if addr in img then Some(img[addr]) else None
  }

  /** `bytes` are stored, all mapped, at `at`, `at + 1`, ... */
  predicate StoredAt(img: Image, at: nat, bytes: seq<Byte>)
  {
    forall a: nat :: at <= a < at + |bytes| ==> Lookup(img, a) == Some(bytes[a - at])
  }

  /** The slice `s[::-1]`. */
  function Reverse<T>(s: seq<T>): (r: seq<T>)
    ensures |r| == |s|
  {
    if s == [] then [] else Reverse(s[1..]) + [s[0]]
  }

  lemma {:induction false} ReverseAt<T>(s: seq<T>, k: nat)
    requires k < |s|
    ensures Reverse(s)[k] == s[|s| - 1 - k]
  {
    if k < |s| - 1 {
      ReverseAt(s[1..], k);
    }
  }

  /** Reversal is an involution: reversing twice gives the payload back. */
  lemma ReverseInvolution<T>(s: seq<T>)
    ensures Reverse(Reverse(s)) == s
  {
    forall k | 0 <= k < |s|
      ensures Reverse(Reverse(s))[k] == s[k]
    {
      ReverseAt(Reverse(s), k);
      ReverseAt(s, |s| - 1 - k);
    }
  }

  /** The in-memory image object the workflow owns and mutates in place. */
  class HexImage {
    var cells: Image

    constructor (initial: Image)
      ensures cells == initial
    {
      cells := initial;
    }
  }
}
