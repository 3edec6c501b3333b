/** Writing the payload into the image, then checking it against a freshly
    reloaded copy of what was persisted. */
module Injection {
  import opened Memory

  /** One payload byte that did not read back: its address, the byte
      written, and what the reloaded image holds there (`None` if unmapped). */
  datatype Mismatch = Mismatch(addr: nat, expected: Byte, actual: Option<Byte>)

  /** What persisting the image and loading it again from scratch gave. */
  datatype PersistResult = Reloaded(image: Image) | WriteFailed | ReloadFailed

  /** The outcome of `inject_and_verify_serial`: success, or which of its
      three errors it raises. A verification failure carries the mismatch
      list the check loop builds; the source's error does not report it. */
  datatype InjectOutcome =
    | Verified
    | WriteFailure
    | ReloadFailure
    | VerificationFailure(mismatches: seq<Mismatch>)

  /** The image after the first `k` iterations of the write loop. */
  function InjectPrefix(img: Image, address: nat, data: seq<Byte>, k: nat): (r: Image)
    requires k <= |data|
    ensures StoredAt(r, address, data[..k])
    ensures forall a: nat :: (a < address || address + k <= a) ==> Lookup(r, a) == Lookup(img, a)
  {
    if k == 0 then img
    else
      var prev := InjectPrefix(img, address, data, k - 1);
      var r := prev[address + k - 1 := data[k - 1]];
      assert forall a: nat :: address <= a < address + k - 1 ==> Lookup(r, a) == Lookup(prev, a);
      r
  }

  /** The image after the whole write loop: `data[i]` at `address + i`,
      every other address as it was, mapped or unmapped. */
  function Inject(img: Image, address: nat, data: seq<Byte>): (r: Image)
    ensures StoredAt(r, address, data)
    ensures forall a: nat :: (a < address || address + |data| <= a) ==> Lookup(r, a) == Lookup(img, a)
  {
    assert data[..|data|] == data;
    InjectPrefix(img, address, data, |data|)
  }

  /** Payload index `i` reads back wrongly from `reloaded`. */
  predicate Fails(reloaded: Image, address: nat, data: seq<Byte>, i: nat)
    requires i < |data|
  {
    Lookup(reloaded, address + i) != Some(data[i])
  }

  /** The mismatch list the check loop has built after `k` iterations. */
  function MismatchesUpTo(reloaded: Image, address: nat, data: seq<Byte>, k: nat): (r: seq<Mismatch>)
    requires k <= |data|
    ensures |r| <= k
    ensures forall m :: m in r ==> address <= m.addr < address + k
  {
    if k == 0 then []
    else
      var i := k - 1;
      MismatchesUpTo(reloaded, address, data, i) +
        (if Fails(reloaded, address, data, i)
         then [Mismatch(address + i, data[i], Lookup(reloaded, address + i))]
         else [])
  }

  /** The list the whole check loop builds: at most one entry per payload
      byte, each at a payload address. */
  function Mismatches(reloaded: Image, address: nat, data: seq<Byte>): (r: seq<Mismatch>)
    ensures |r| <= |data|
    ensures forall m :: m in r ==> address <= m.addr < address + |data|
  {
    MismatchesUpTo(reloaded, address, data, |data|)
  }

  /** Every listed mismatch is a payload byte that failed to read back,
      reported with the byte expected and the value found. */
  lemma {:induction false} MismatchesSound(reloaded: Image, address: nat, data: seq<Byte>, k: nat)
    requires k <= |data|
    ensures forall m :: m in MismatchesUpTo(reloaded, address, data, k) ==>
      address <= m.addr < address + k &&
      m.expected == data[m.addr - address] &&
      m.actual == Lookup(reloaded, m.addr) &&
      m.actual != Some(m.expected)
  {
    if k > 0 {
      MismatchesSound(reloaded, address, data, k - 1);
    }
  }

  /** Every payload byte that failed to read back is listed. */
  lemma {:induction false} MismatchesComplete(reloaded: Image, address: nat, data: seq<Byte>, k: nat)
    requires k <= |data|
    ensures forall i: nat :: i < k && Fails(reloaded, address, data, i) ==>
      Mismatch(address + i, data[i], Lookup(reloaded, address + i)) in MismatchesUpTo(reloaded, address, data, k)
  {
    if k > 0 {
      MismatchesComplete(reloaded, address, data, k - 1);
    }
  }

  /** The list follows payload order: addresses strictly increase. */
  lemma {:induction false} MismatchesOrdered(reloaded: Image, address: nat, data: seq<Byte>, k: nat)
    requires k <= |data|
    ensures forall i, j :: 0 <= i < j < |MismatchesUpTo(reloaded, address, data, k)| ==>
      MismatchesUpTo(reloaded, address, data, k)[i].addr < MismatchesUpTo(reloaded, address, data, k)[j].addr
  {
    if k > 0 {
      MismatchesOrdered(reloaded, address, data, k - 1);
      MismatchesSound(reloaded, address, data, k - 1);
    }
  }

  /** No mismatch is reported exactly when the whole payload reads back. */
  lemma MismatchesEmptyIff(reloaded: Image, address: nat, data: seq<Byte>)
    ensures Mismatches(reloaded, address, data) == [] <==> StoredAt(reloaded, address, data)
  {
    var ms := Mismatches(reloaded, address, data);
    MismatchesSound(reloaded, address, data, |data|);
    MismatchesComplete(reloaded, address, data, |data|);
    if ms == [] {
      forall a: nat | address <= a < address + |data|
        ensures Lookup(reloaded, a) == Some(data[a - address])
      {
        var i: nat := a - address;
        assert !Fails(reloaded, address, data, i);
      }
    } else {
      var m := ms[0];
      assert m in ms;
      assert Lookup(reloaded, m.addr) != Some(data[m.addr - address]);
    }
  }

  /** The verdict on a persisted-and-reloaded image. */
  function VerifyOutcome(persisted: PersistResult, address: nat, data: seq<Byte>): (r: InjectOutcome)
    ensures r == Verified <==> persisted.Reloaded? && StoredAt(persisted.image, address, data)
    ensures r == WriteFailure <==> persisted.WriteFailed?
    ensures r == ReloadFailure <==> persisted.ReloadFailed?
    ensures persisted.Reloaded? && !StoredAt(persisted.image, address, data) ==>
      r == VerificationFailure(Mismatches(persisted.image, address, data))
    ensures r.VerificationFailure? ==>
      persisted.Reloaded? && r.mismatches == Mismatches(persisted.image, address, data) && r.mismatches != []
  {
    match persisted
    case WriteFailed => WriteFailure
    case ReloadFailed => ReloadFailure
    case Reloaded(reloaded) =>
      MismatchesEmptyIff(reloaded, address, data);
      var ms := Mismatches(reloaded, address, data);
      if ms == [] then Verified else VerificationFailure(ms)
  }

  /** When the persisted artifact reloads as exactly what was written, the
      injection verifies. */
  lemma FaithfulPersistVerifies(img: Image, address: nat, data: seq<Byte>)
    ensures VerifyOutcome(Reloaded(Inject(img, address, data)), address, data) == Verified
  {
  }

  /** The check loop of `inject_and_verify_serial`. */
  method CollectMismatches(reloaded: Image, address: nat, data: seq<Byte>) returns (unexpected: seq<Mismatch>)
    ensures unexpected == Mismatches(reloaded, address, data)
  {
    unexpected := [];
    var i := 0;
    while i < |data|
      invariant i <= |data|
      invariant unexpected == MismatchesUpTo(reloaded, address, data, i)
    {
      var b := data[i];
      var addr := address + i;
      if addr !in reloaded {
        unexpected := unexpected + [Mismatch(addr, b, None)];
      } else if reloaded[addr] != b {
        unexpected := unexpected + [Mismatch(addr, b, Some(reloaded[addr]))];
      }
      i := i + 1;
    }
  }

  /** `inject_and_verify_serial`: write the payload into `ih` in place,
      persist and reload through `persist`, and check the reloaded image. */
  method InjectAndVerifySerial(ih: HexImage, address: nat, data: seq<Byte>, persist: Image -> PersistResult)
    returns (outcome: InjectOutcome)
    modifies ih
    ensures ih.cells == Inject(old(ih.cells), address, data)
    ensures outcome == VerifyOutcome(persist(ih.cells), address, data)
  {
    var i := 0;
    while i < |data|
      invariant i <= |data|
      invariant ih.cells == InjectPrefix(old(ih.cells), address, data, i)
    {
      ih.cells := ih.cells[address + i := data[i]];
      i := i + 1;
    }
    match persist(ih.cells)
    case WriteFailed =>
      outcome := WriteFailure;
    case ReloadFailed =>
      outcome := ReloadFailure;
    case Reloaded(reloaded) =>
      var unexpected := CollectMismatches(reloaded, address, data);
      if unexpected != [] {
        outcome := VerificationFailure(unexpected);
      } else {
        outcome := Verified;
      }
  }

  /** The repository's injection test: `A1 B2 C3 D4` injected at 0x2000
      into an empty image reads back at 0x2000..0x2003. */
  lemma InjectionTestExample(data: seq<Byte>)
    requires data == [0xA1, 0xB2, 0xC3, 0xD4]
    ensures Lookup(Inject(map[], 0x2000, data), 0x2000) == Some(0xA1)
    ensures Lookup(Inject(map[], 0x2000, data), 0x2001) == Some(0xB2)
    ensures Lookup(Inject(map[], 0x2000, data), 0x2002) == Some(0xC3)
    ensures Lookup(Inject(map[], 0x2000, data), 0x2003) == Some(0xD4)
    ensures VerifyOutcome(Reloaded(Inject(map[], 0x2000, data)), 0x2000, data) == Verified
  {
  }
}
