/** Serial-number validation and decoding: from the operator's hex string to
    the payload bytes, or to the first validation rule it breaks. */
module SerialCodec {
  import opened Memory

  /** Default bound on the number of hex characters. */
  const MAX_HEX_CHARS: int := 16

  /** Validation failures, in the order the rules are checked. */
  datatype SerialError = Empty | TooLong | OddLength | InvalidCharacter

  predicate IsHexDigit(c: char)
  {
    ('0' <= c <= '9') || ('a' <= c <= 'f') || ('A' <= c <= 'F')
  }

  predicate AllHexDigits(s: string)
  {
    forall i :: 0 <= i < |s| ==> IsHexDigit(s[i])
  }

  /** `is_valid_serial`: the pattern `[0-9a-fA-F]+` matches the whole
      string, one character at a time. */
  function IsValidSerial(s: string): (r: bool)
    ensures r <==> |s| > 0 && AllHexDigits(s)
  {
    |s| > 0 && IsHexDigit(s[0]) && (|s| == 1 || IsValidSerial(s[1..]))
  }

  /** The examples the repository's parsing test checks. */
  lemma ValidSerialExamples()
    ensures IsValidSerial("ABC123")
    ensures IsValidSerial("A1B2C3D4")
    ensures !IsValidSerial("G12345")
    ensures !IsValidSerial("A1 B2")
  {
  }

  /** A leading `0x` or `0X` is dropped (once): the result is `s` itself or
      the suffix after its first two characters. */
  function StripHexPrefix(s: string): (r: string)
    ensures r == s || (|s| >= 2 && r == s[2..])
  {
    if |s| >= 2 && s[0] == '0' && (s[1] == 'x' || s[1] == 'X') then s[2..] else s
  }

  predicate IsSeparator(c: char)
  {
    c == ' ' || c == '-'
  }

  /** `s.replace(" ", "").replace("-", "")`: every space and hyphen
      removed, a string without them left as it is. */
  function RemoveSeparators(s: string): (r: string)
    ensures forall i :: 0 <= i < |r| ==> !IsSeparator(r[i])
    ensures (forall i :: 0 <= i < |s| ==> !IsSeparator(s[i])) ==> r == s
  {
    if s == [] then []
    else
      var rest := RemoveSeparators(s[1..]);
      if IsSeparator(s[0]) then rest else [s[0]] + rest
  }

  /** Removing separators keeps every other character, as often as it
      occurs. */
  lemma {:induction false} RemoveSeparatorsKeeps(s: string, c: char)
    requires !IsSeparator(c)
    ensures multiset(RemoveSeparators(s))[c] == multiset(s)[c]
  {
    if s != [] {
      RemoveSeparatorsKeeps(s[1..], c);
      assert s == [s[0]] + s[1..];
    }
  }

  /** Removal keeps the order: removal from a concatenation is the
      concatenation of the removals. */
  lemma {:induction false} RemoveSeparatorsInOrder(a: string, b: string)
    ensures RemoveSeparators(a + b) == RemoveSeparators(a) + RemoveSeparators(b)
  {
    if a == [] {
      assert a + b == b;
    } else {
      var ab := a + b;
      assert ab[0] == a[0];
      assert ab[1..] == a[1..] + b;
      RemoveSeparatorsInOrder(a[1..], b);
    }
  }

  /** A single character survives removal exactly when it is no separator;
      with RemoveSeparatorsInOrder this fixes the result of every string. */
  lemma RemoveSeparatorsSingle(c: char)
    ensures RemoveSeparators([c]) == (if IsSeparator(c) then [] else [c])
  {
    assert [c][1..] == [];
  }

  /** The string that is actually validated. */
  function Clean(s: string): (r: string)
    ensures forall i :: 0 <= i < |r| ==> !IsSeparator(r[i])
  {
    RemoveSeparators(StripHexPrefix(s))
  }

  /** Cleaning drops one `0x` or `0X` prefix and then the separators; a
      string without that prefix only loses its separators. */
  lemma CleanPrefix(t: string, s: string)
    requires !(|s| >= 2 && s[0] == '0' && (s[1] == 'x' || s[1] == 'X'))
    ensures Clean("0x" + t) == RemoveSeparators(t)
    ensures Clean("0X" + t) == RemoveSeparators(t)
    ensures Clean(s) == RemoveSeparators(s)
  {
    assert ("0x" + t)[2..] == t;
    assert ("0X" + t)[2..] == t;
  }

  /** Value of one hex digit. */
  function HexValue(c: char): (v: nat)
    requires IsHexDigit(c)
    ensures v < 16
  {
    if '0' <= c <= '9' then c as int - '0' as int
    else if 'a' <= c <= 'f' then c as int - 'a' as int + 10
    else c as int - 'A' as int + 10
  }

  /** Upper-case hex digit of a value below 16. */
  function UpperHexDigit(v: nat): (c: char)
    requires v < 16
    ensures IsHexDigit(c) && HexValue(c) == v
  {
    if v < 10 then ('0' as int + v) as char else ('A' as int + v - 10) as char
  }

  function ToUpperChar(c: char): char
  {
    if 'a' <= c <= 'f' then (c as int - 32) as char else c
  }

  /** `str.upper()` on a string of hex digits. */
  function ToUpper(s: string): (r: string)
    ensures |r| == |s|
    ensures forall i :: 0 <= i < |s| ==> r[i] == ToUpperChar(s[i])
  {
    if s == [] then [] else [ToUpperChar(s[0])] + ToUpper(s[1..])
  }

  /** `bytes.fromhex` on an even-length string of hex digits. */
  function DecodeHex(s: string): (r: seq<Byte>)
    requires |s| % 2 == 0 && AllHexDigits(s)
    ensures |r| * 2 == |s|
    ensures forall k :: 0 <= k < |r| ==> r[k] == HexValue(s[2 * k]) * 16 + HexValue(s[2 * k + 1])
  {
    if s == [] then []
    else
      var rest := DecodeHex(s[2..]);
      var r := [HexValue(s[0]) * 16 + HexValue(s[1])] + rest;
      assert forall k :: 1 <= k < |r| ==> r[k] == rest[k - 1];
      r
  }

  /** `bytes.hex().upper()`. */
  function EncodeHexUpper(b: seq<Byte>): (r: string)
    ensures |r| == 2 * |b| && AllHexDigits(r)
  {
    if b == [] then [] else [UpperHexDigit(b[0] / 16), UpperHexDigit(b[0] % 16)] + EncodeHexUpper(b[1..])
  }

  /** Decoding the upper-case hex rendering gives the bytes back. */
  lemma {:induction false} DecodeEncode(b: seq<Byte>)
    ensures DecodeHex(EncodeHexUpper(b)) == b
  {
    if b != [] {
      var e := EncodeHexUpper(b);
      DecodeEncode(b[1..]);
      assert e[2..] == EncodeHexUpper(b[1..]);
      assert HexValue(e[0]) * 16 + HexValue(e[1]) == b[0];
    }
  }

  /** Rendering the decoded bytes gives the validated string, upper-cased. */
  lemma {:induction false} EncodeDecode(s: string)
    requires |s| % 2 == 0 && AllHexDigits(s)
    ensures EncodeHexUpper(DecodeHex(s)) == ToUpper(s)
  {
    if s != [] {
      var d := DecodeHex(s);
      assert d[1..] == DecodeHex(s[2..]);
      EncodeDecode(s[2..]);
      ByteDigits(HexValue(s[0]), HexValue(s[1]));
      UpperDigitOfValue(s[0]);
      UpperDigitOfValue(s[1]);
      var head := [UpperHexDigit(d[0] / 16), UpperHexDigit(d[0] % 16)];
      assert head == [ToUpperChar(s[0]), ToUpperChar(s[1])];
      assert EncodeHexUpper(d) == head + EncodeHexUpper(d[1..]);
      ToUpperPair(s);
    }
  }

  lemma ByteDigits(hi: nat, lo: nat)
    requires hi < 16 && lo < 16
    ensures (hi * 16 + lo) / 16 == hi && (hi * 16 + lo) % 16 == lo
  {
  }

  lemma ToUpperPair(s: string)
    requires |s| >= 2
    ensures ToUpper(s) == [ToUpperChar(s[0]), ToUpperChar(s[1])] + ToUpper(s[2..])
  {
    assert s[1..][1..] == s[2..];
  }

  lemma UpperDigitOfValue(c: char)
    requires IsHexDigit(c)
    ensures UpperHexDigit(HexValue(c)) == ToUpperChar(c)
  {
  }

  /** The non-interactive core of `parse_serial`: clean the string, then
      check the rules in order and report the first one broken, else
      decode. */
  function ParseSerial(s: string, maxChars: int): (r: Result<seq<Byte>, SerialError>)
    ensures r == Err(Empty) <==> |Clean(s)| == 0
    ensures r == Err(TooLong) <==> |Clean(s)| != 0 && |Clean(s)| > maxChars
    ensures r == Err(OddLength) <==> 0 < |Clean(s)| <= maxChars && |Clean(s)| % 2 == 1
    ensures r == Err(InvalidCharacter) <==>
      0 < |Clean(s)| <= maxChars && |Clean(s)| % 2 == 0 && !AllHexDigits(Clean(s))
    ensures r.Ok? ==> 0 < |r.value| && |r.value| * 2 == |Clean(s)| <= maxChars
    ensures r.Ok? ==> EncodeHexUpper(r.value) == ToUpper(Clean(s))
  {
    var c := Clean(s);
    if |c| == 0 then Err(Empty)
    else if |c| > maxChars then Err(TooLong)
    else if |c| % 2 != 0 then Err(OddLength)
    else if !IsValidSerial(c) then Err(InvalidCharacter)
    else
      EncodeDecode(c);
      Ok(DecodeHex(c))
  }

  /** Every even-length hex string of at most `maxChars` characters, with
      no prefix and no separators, is accepted and decodes to half as many
      bytes. */
  lemma AcceptsValidHex(s: string, maxChars: int)
    requires 0 < |s| <= maxChars && |s| % 2 == 0 && AllHexDigits(s)
    ensures ParseSerial(s, maxChars) == Ok(DecodeHex(s))
    ensures |DecodeHex(s)| * 2 == |s|
  {
    CleanKeepsHex(s);
  }

  /** A string of hex digits is already clean. */
  lemma CleanKeepsHex(s: string)
    requires AllHexDigits(s)
    ensures Clean(s) == s
  {
  }

  /** Prefix and separators are accepted in the input and do not reach the
      payload. The concrete strings in this and the following lemmas are
      parameters fixed by a precondition rather than literals in the
      postcondition, so that the verifier unfolds the recursive string
      functions only as far as each step asks. */
  lemma ParseSerialExample(s: string)
    requires s == "0xA1-B2 c3D4"
    ensures ParseSerial(s, MAX_HEX_CHARS) == Ok([0xA1, 0xB2, 0xC3, 0xD4])
  {
    assert StripHexPrefix(s) == s[2..];
    SeparatorsExample(s[2..]);
    DecodeExample(Clean(s));
    AcceptsValidHex(Clean(s), MAX_HEX_CHARS);
  }

  lemma SeparatorsExample(t: string)
    requires t == "A1-B2 c3D4"
    ensures RemoveSeparators(t) == "A1B2c3D4"
  {
    assert RemoveSeparators(t[6..]) == t[6..];
    assert RemoveSeparators(t[5..]) == RemoveSeparators(t[6..]);
    assert RemoveSeparators(t[4..]) == [t[4]] + RemoveSeparators(t[5..]);
    assert RemoveSeparators(t[3..]) == [t[3]] + RemoveSeparators(t[4..]);
    assert RemoveSeparators(t[2..]) == RemoveSeparators(t[3..]);
    assert RemoveSeparators(t[1..]) == [t[1]] + RemoveSeparators(t[2..]);
    assert RemoveSeparators(t) == [t[0]] + RemoveSeparators(t[1..]);
  }

  lemma DecodeExample(c: string)
    requires c == "A1B2C3D4" || c == "A1B2c3D4"
    ensures AllHexDigits(c) && DecodeHex(c) == [0xA1, 0xB2, 0xC3, 0xD4]
  {
  }

  /** The rules reject in order: length before parity before characters. */
  lemma ParseSerialRejections(tooLong: string, odd: string, bad: string, blank: string)
    requires tooLong == "A1B2C3D4" && odd == "A1B" && bad == "G1" && blank == " - "
    ensures ParseSerial(tooLong, 4) == Err(TooLong)
    ensures ParseSerial(odd, MAX_HEX_CHARS) == Err(OddLength)
    ensures ParseSerial(bad, MAX_HEX_CHARS) == Err(InvalidCharacter)
    ensures ParseSerial(blank, MAX_HEX_CHARS) == Err(Empty)
  {
    assert forall i :: 0 <= i < |tooLong| ==> IsHexDigit(tooLong[i]);
    assert forall i :: 0 <= i < |odd| ==> IsHexDigit(odd[i]);
    assert !IsHexDigit(bad[0]) && IsHexDigit(bad[1]);
    assert RemoveSeparators(blank[2..]) == [];
    assert RemoveSeparators(blank[1..]) == [];
  }
}
