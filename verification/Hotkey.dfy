/** Base-58 text and SS58 account addresses. The BLAKE2b checksum is a parameter: any function to two bytes. */
module Hotkey {
  import opened Bits
  import opened Digits
  import opened Wrappers

  // Base 58 without 0, I, O and l.
  const ALPHABET: string := "123456789" + "ABCDEFGH" + "JKLMN" + "PQRSTUVWXYZ" + "abcdefghijk" + "mnopqrstuvwxyz"

  datatype HotkeyError =
    | NotBase58 | BadKeyLength | PrefixNotAByte | NotAnAccount | ChecksumMismatch | WrongNetwork(prefix: int)

  // ------------------------------------------------------------ conversion between bases

  /** `len(s) - len(s.lstrip(x))`: how many times s starts with x. */
  function Leading<T(==)>(s: seq<T>, x: T): (n: nat)
    ensures n <= |s| && (n < |s| ==> s[n] != x)
    ensures forall i :: 0 <= i < n ==> s[i] == x
  {
    if s == [] || s[0] != x then 0 else 1 + Leading(s[1..], x)
  }

  /** The same number in another base, with one leading zero for each leading zero. */
  function Convert(ds: seq<int>, from: nat, to: nat): (r: seq<int>)
    requires from >= 2 && to >= 2 && AreDigits(ds, from)
    ensures AreDigits(r, to)
  {
    Zeros(Leading(ds, 0)) + Minimal(Value(ds, from), to)
  }

  lemma {:induction false} LeadingZerosUnique(k: nat, ds: seq<int>)
    requires ds == [] || ds[0] != 0
    ensures Leading(Zeros(k) + ds, 0) == k
  {
    var all := Zeros(k) + ds;
    if k > 0 {
      LeadingZerosUnique(k - 1, ds);
      assert all[1..] == Zeros(k - 1) + ds;
    } else {
      assert all == ds;
    }
  }

  /** Converting to another base and back changes nothing, leading zeros included. */
  lemma ConvertBack(ds: seq<int>, from: nat, to: nat)
    requires from >= 2 && to >= 2 && AreDigits(ds, from)
    ensures Convert(Convert(ds, from, to), to, from) == ds
  {
    var k := Leading(ds, 0);
    var rest := ds[k..];
    assert ds == Zeros(k) + rest;
    ValueOfPadded(k, rest, from);
    var n := Value(rest, from);
    var there := Minimal(n, to);
    MinimalOfValue(rest, from);
    ValueOfMinimal(n, to);
    ValueOfPadded(k, there, to);
    LeadingZerosUnique(k, there);
  }

  // ------------------------------------------------------------ text

  /** `find`: the position of a character, or -1. */
  function Find(alphabet: string, c: char): (r: int)
    ensures -1 <= r < |alphabet|
    ensures r >= 0 ==> alphabet[r] == c
  {
    if alphabet == [] then -1
    else if alphabet[0] == c then 0
    else var r := Find(alphabet[1..], c); if r < 0 then -1 else r + 1
  }

  predicate StrictlyIncreasing(alphabet: string) {
    forall i, j :: 0 <= i < j < |alphabet| ==> alphabet[i] < alphabet[j]
  }

  lemma {:induction false} FindOwn(alphabet: string, k: nat)
    requires k < |alphabet| && StrictlyIncreasing(alphabet)
    ensures Find(alphabet, alphabet[k]) == k
  {
    if k > 0 { FindOwn(alphabet[1..], k - 1); }
  }

  function Run(first: char, n: nat): (s: string)
    requires first as int + n <= 0x80
    ensures |s| == n && forall i :: 0 <= i < n ==> s[i] == (first as int + i) as char
  {
    seq(n, i requires 0 <= i < n => (first as int + i) as char)
  }

  lemma AlphabetRuns()
    ensures ALPHABET == Run('1', 9) + Run('A', 8) + Run('J', 5) + Run('P', 11) + Run('a', 11) + Run('m', 14)
  {
    assert Run('1', 9) == "123456789";
    assert Run('A', 8) == "ABCDEFGH";
    assert Run('J', 5) == "JKLMN";
    assert Run('P', 11) == "PQRSTUVWXYZ";
    assert Run('a', 11) == "abcdefghijk";
    assert Run('m', 14) == "mnopqrstuvwxyz";
  }

  lemma IncreasingAppend(s: string, first: char, n: nat)
    requires StrictlyIncreasing(s) && first as int + n <= 0x80
    requires s != [] ==> s[|s| - 1] < first
    ensures StrictlyIncreasing(s + Run(first, n))
  {
  }

  lemma AlphabetIncreasing()
    ensures |ALPHABET| == 58 && ALPHABET[0] == '1' && StrictlyIncreasing(ALPHABET)
  {
    AlphabetRuns();
    var digits := Run('1', 9);
    IncreasingAppend(digits, 'A', 8);
    IncreasingAppend(digits + Run('A', 8), 'J', 5);
    IncreasingAppend(digits + Run('A', 8) + Run('J', 5), 'P', 11);
    IncreasingAppend(digits + Run('A', 8) + Run('J', 5) + Run('P', 11), 'a', 11);
    IncreasingAppend(digits + Run('A', 8) + Run('J', 5) + Run('P', 11) + Run('a', 11), 'm', 14);
  }

  function Chars(ds: seq<int>): (text: string)
    requires AreDigits(ds, 58)
    ensures |text| == |ds| && forall i :: 0 <= i < |ds| ==> text[i] == ALPHABET[ds[i]]
  {
    seq(|ds|, i requires 0 <= i < |ds| => ALPHABET[ds[i]])
  }

  /** The digits a text spells, if every character is in the alphabet. */
  function Indices(text: string): (r: Option<seq<int>>)
    ensures r.Some? ==> |r.value| == |text| && AreDigits(r.value, 58)
    ensures r.Some? ==> forall i :: 0 <= i < |text| ==> ALPHABET[r.value[i]] == text[i]
  {
    if text == [] then Some([])
    else
      match Indices(text[..|text| - 1])
      case None => None
      case Some(front) =>
        var index := Find(ALPHABET, text[|text| - 1]);
        if index < 0 then None else Some(front + [index])
  }

  lemma {:induction false} IndicesOfChars(ds: seq<int>)
    requires AreDigits(ds, 58)
    ensures Indices(Chars(ds)) == Some(ds)
  {
    if ds != [] {
      var (front, last) := (ds[..|ds| - 1], ds[|ds| - 1]);
      IndicesOfChars(front);
      var text := Chars(ds);
      assert text[..|text| - 1] == Chars(front);
      AlphabetIncreasing();
      FindOwn(ALPHABET, last);
      assert ds == front + [last];
    }
  }

  lemma CharsOfIndices(text: string)
    requires Indices(text).Some?
    ensures Chars(Indices(text).value) == text
  {
  }

  // ------------------------------------------------------------ base 58

  function Encoded58(data: bytes): string {
    Chars(Convert(data, 256, 58))
  }

  function Decoded58(text: string): Result<bytes, HotkeyError> {
    match Indices(text)
    case None => Failure(NotBase58)
    case Some(ds) => Success(Convert(ds, 58, 256))
  }

  /** The text of bytes spells their big-endian number in base 58, behind as many ones as there are leading zero bytes. */
  lemma SameNumber(data: bytes)
    ensures Indices(Encoded58(data)).Some? && Value(Indices(Encoded58(data)).value, 58) == FromBytes(data)
    ensures Leading(Encoded58(data), '1') == Leading(data, 0)
  {
    var ds := Convert(data, 256, 58);
    assert Indices(Encoded58(data)) == Some(ds) by { IndicesOfChars(ds); }
    ConvertedNumber(data, 256, 58);
    assert Leading(Encoded58(data), '1') == Leading(ds, 0) by { LeadingOnes(Encoded58(data)); }
  }

  /** Conversion changes neither the number nor how many zeros it starts with. */
  lemma ConvertedNumber(ds: seq<int>, from: nat, to: nat)
    requires from >= 2 && to >= 2 && AreDigits(ds, from)
    ensures Value(Convert(ds, from, to), to) == Value(ds, from)
    ensures Leading(Convert(ds, from, to), 0) == Leading(ds, 0)
  {
    var (k, there) := (Leading(ds, 0), Minimal(Value(ds, from), to));
    ValueOfPadded(k, there, to);
    ValueOfMinimal(Value(ds, from), to);
    LeadingZerosUnique(k, there);
  }

  /** Decoding undoes encoding for every byte string, leading zero bytes included. */
  lemma Decode58OfEncode58(data: bytes)
    ensures Decoded58(Encoded58(data)) == Success(data)
  {
    IndicesOfChars(Convert(data, 256, 58));
    ConvertBack(data, 256, 58);
  }

  /** Encoding undoes decoding for every text over the alphabet, leading ones included; any other text is refused. */
  lemma Encode58OfDecode58(text: string)
    ensures Decoded58(text).Success? ==> Encoded58(Decoded58(text).value) == text
    ensures Decoded58(text).Success? <==> forall i :: 0 <= i < |text| ==> text[i] in ALPHABET
  {
    if Decoded58(text).Success? {
      ConvertBack(Indices(text).value, 58, 256);
      CharsOfIndices(text);
    }
    IndicesExist(text);
  }

  lemma {:induction false} IndicesExist(text: string)
    ensures Indices(text).Some? <==> forall i :: 0 <= i < |text| ==> text[i] in ALPHABET
  {
    if text != [] {
      IndicesExist(text[..|text| - 1]);
      FindsMember(ALPHABET, text[|text| - 1]);
      assert text[|text| - 1] in ALPHABET <==> Find(ALPHABET, text[|text| - 1]) >= 0;
    }
  }

  lemma {:induction false} FindsMember(alphabet: string, c: char)
    ensures Find(alphabet, c) >= 0 <==> c in alphabet
  {
    if alphabet != [] {
      FindsMember(alphabet[1..], c);
      assert c in alphabet <==> c == alphabet[0] || c in alphabet[1..];
    }
  }

  /** The bytes of a number, as many as its bit length needs. */
  function ToBytes(n: nat): bytes {
    if n == 0 then [] else Fixed(n, 256, (BitLength(n) + 7) / 8)
  }

  lemma {:induction false} MinimalIsFixed(n: nat, base: nat)
    requires base >= 2
    ensures Fixed(n, base, |Minimal(n, base)|) == Minimal(n, base)
  {
    if n > 0 { MinimalIsFixed(Quotient(n, base), base); }
  }

  lemma {:induction false} BitLengthOfBytes(n: nat)
    requires n > 0
    ensures |Minimal(n, 256)| == (BitLength(n) + 7) / 8
  {
    var q := Quotient(n, 256);
    if q == 0 {
      BitLengthBounds(n);
      if BitLength(n) > 8 { Pow2Monotone(8, BitLength(n) - 1); }
      assert Pow2(8) == 256 by { assert Pow2(4) == 16; }
    } else {
      BitLengthOfBytes(q);
      BitLengthShift8(n);
    }
  }

  lemma BitLengthShift4(n: nat)
    requires n >= 16
    ensures BitLength(n) == BitLength(n / 16) + 4
  {
    var (a, b, c) := (n / 2, n / 4, n / 8);
    assert BitLength(n) == 1 + BitLength(a) && a / 2 == b;
    assert BitLength(a) == 1 + BitLength(b) && b / 2 == c;
    assert BitLength(b) == 1 + BitLength(c) && c / 2 == n / 16;
  }

  lemma BitLengthShift8(n: nat)
    requires n >= 256
    ensures BitLength(n) == BitLength(n / 256) + 8
  {
    BitLengthShift4(n);
    BitLengthShift4(n / 16);
    assert n / 16 / 16 == n / 256;
  }

  /** `to_bytes` with the bit length's own byte count gives the number's base-256 digits, none of them a leading zero. */
  lemma ToBytesIsMinimal(n: nat)
    ensures ToBytes(n) == Minimal(n, 256)
  {
    if n > 0 {
      BitLengthOfBytes(n);
      MinimalIsFixed(n, 256);
    }
  }

  /** The number a text spells, the first loop of decoding. */
  method ParseNumber(text: string) returns (r: Option<nat>)
    ensures r == match Indices(text) case Some(ds) => Some(Value(ds, 58)) case None => None
  {
    var number: nat := 0;
    for i := 0 to |text|
      invariant Indices(text[..i]).Some? && number == Value(Indices(text[..i]).value, 58)
    {
      var index := Find(ALPHABET, text[i]);
      assert text[..i + 1][..i] == text[..i];
      if index < 0 {
        IndicesPrefix(text, i + 1);
        return None;
      }
      ghost var front := Indices(text[..i]).value;
      assert (front + [index])[..i] == front;
      number := number * 58 + index;
    }
    assert text[..|text|] == text;
    return Some(number);
  }

  method B58Decode(text: string) returns (r: Result<bytes, HotkeyError>)
    ensures r == Decoded58(text)
  {
    var number := ParseNumber(text);
    if number.None? {
      return Failure(NotBase58);
    }
    ToBytesIsMinimal(number.value);
    LeadingOnes(text);
    return Success(Zeros(Leading(text, '1')) + ToBytes(number.value));
  }

  lemma {:induction false} IndicesPrefix(text: string, n: nat)
    requires n <= |text| && Indices(text[..n]).None?
    ensures Indices(text).None?
    decreases |text| - n
  {
    if n < |text| {
      assert text[..n + 1][..n] == text[..n];
      IndicesPrefix(text, n + 1);
    } else {
      assert text[..n] == text;
    }
  }

  /** Leading ones are leading zero digits. */
  lemma LeadingOnes(text: string)
    requires Indices(text).Some?
    ensures Leading(text, '1') == Leading(Indices(text).value, 0)
  {
    var ds := Indices(text).value;
    SameLeading(text, '1', ds, 0);
  }

  lemma SameLeading(text: string, c: char, ds: seq<int>, d: int)
    requires |text| == |ds| && 0 <= d < 58 && c == ALPHABET[d] && AreDigits(ds, 58)
    requires forall i :: 0 <= i < |text| ==> ALPHABET[ds[i]] == text[i]
    ensures Leading(text, c) == Leading(ds, d)
  {
    AlphabetIncreasing();
    if text != [] && ds[0] == d {
      SameLeading(text[1..], c, ds[1..], d);
    }
  }

  lemma CharsOfPadded(k: nat, ds: seq<int>)
    requires AreDigits(ds, 58)
    ensures Chars(Zeros(k) + ds) == seq(k, _ => '1') + Chars(ds)
  {
    AlphabetIncreasing();
  }

  lemma EncodeStep(number: nat, tail: seq<int>)
    requires number > 0 && AreDigits(tail, 58)
    ensures Minimal(number, 58) + tail == Minimal(Quotient(number, 58), 58) + ([number % 58] + tail)
    ensures AreDigits([number % 58] + tail, 58)
    ensures Chars([number % 58] + tail) == [ALPHABET[number % 58]] + Chars(tail)
  {
    Regroup(Minimal(Quotient(number, 58), 58), number % 58, tail);
    CharsOfCons(number % 58, tail);
  }

  lemma Regroup(front: seq<int>, d: int, tail: seq<int>)
    ensures front + [d] + tail == front + ([d] + tail)
  {
  }

  lemma CharsOfCons(d: int, tail: seq<int>)
    requires 0 <= d < 58 && AreDigits(tail, 58)
    ensures AreDigits([d] + tail, 58) && Chars([d] + tail) == [ALPHABET[d]] + Chars(tail)
  {
  }

  /** The digits of a number as text, the loop of encoding. */
  method PrintNumber(n: nat) returns (text: string)
    ensures text == Chars(Minimal(n, 58))
  {
    var number: nat := n;
    ghost var tail: seq<int> := [];
    text := "";
    while number != 0
      invariant AreDigits(tail, 58) && Minimal(number, 58) + tail == Minimal(n, 58) && text == Chars(tail)
    {
      EncodeStep(number, tail);
      tail := [number % 58] + tail;
      text := [ALPHABET[number % 58]] + text;
      number := Quotient(number, 58);
    }
  }

  method B58Encode(data: bytes) returns (text: string)
    ensures text == Encoded58(data)
  {
    text := PrintNumber(FromBytes(data));
    CharsOfPadded(Leading(data, 0), Minimal(FromBytes(data), 58));
    text := seq(Leading(data, 0), _ => '1') + text;
  }

  // ------------------------------------------------------------ SS58 addresses

  type Checksum = bytes -> (byte, byte)

  function CheckBytes(checksum: Checksum, payload: bytes): (r: bytes)
    ensures |r| == 2
  {
    [checksum(payload).0, checksum(payload).1]
  }

  /** Bitwise or of a and b below 4. */
  function Or2(a: nat, b: nat): nat
    requires a < 4 && b < 4
  {
    (if a % 2 == 1 || b % 2 == 1 then 1 else 0) + (if a >= 2 || b >= 2 then 2 else 0)
  }

  /** It is the or of bits. */
  lemma OrOfBits(a: nat, b: nat)
    requires a < 4 && b < 4
    ensures Or2(a, b) == ((a as bv2) | (b as bv2)) as int
  {
  }

  /** The network prefix bytes: `f` itself below 64, else `((f & 0xFC) >> 2) | 0x40` and `(f >> 8) | ((f & 3) << 6)`. */
  function PrefixBytes(f: int): Result<bytes, HotkeyError> {
    if f < 0 || f >= 0x1_0000 then Failure(PrefixNotAByte)
    else if f < 64 then Success([f])
    else
      var high := f / 256;
      Success([f % 256 / 4 + 64, high % 64 + 64 * Or2(high / 64, f % 4)])
  }

  function Ss58Encode(publicKey: bytes, f: int, checksum: Checksum): Result<string, HotkeyError> {
    if |publicKey| != 32 then Failure(BadKeyLength)
    else
      match PrefixBytes(f)
      case Failure(e) => Failure(e)
      case Success(prefix) => Success(Encoded58(prefix + publicKey + CheckBytes(checksum, prefix + publicKey)))
  }

  /** `((a & 0x3F) << 2) | (b >> 6) | ((b & 0x3F) << 8)`: the three parts share no bit. */
  function TwoBytePrefix(a: int, b: int): (f: int)
    requires 0 <= a < 256 && 0 <= b < 256
  {
    a % 64 * 4 + b / 64 + b % 64 * 256
  }

  /** The prefix length and network of a raw address, from its length and first bytes. */
  function ReadPrefix(raw: bytes): Result<(nat, int), HotkeyError> {
    if |raw| == 35 then Success((1, raw[0]))
    else if |raw| == 36 && raw[0] / 64 % 2 == 1 then Success((2, TwoBytePrefix(raw[0], raw[1])))
    else Failure(NotAnAccount)
  }

  /** The key of an address; `f` is the network expected, or None for any. */
  function Ss58Decode(address: string, f: Option<int>, checksum: Checksum): Result<bytes, HotkeyError> {
    match Decoded58(address)
    case Failure(e) => Failure(e)
    case Success(raw) => ReadAccount(raw, f, checksum)
  }

  function ReadAccount(raw: bytes, f: Option<int>, checksum: Checksum): Result<bytes, HotkeyError> {
    match ReadPrefix(raw)
    case Failure(e) => Failure(e)
    case Success((prefixLength, prefix)) =>
      if CheckBytes(checksum, raw[..|raw| - 2]) != raw[|raw| - 2..] then Failure(ChecksumMismatch)
      else if f.Some? && prefix != f.value then Failure(WrongNetwork(prefix))
      else Success(raw[prefixLength..|raw| - 2])
  }

  lemma TwoBytesReadBack(f: int)
    requires 64 <= f < 0x1_0000
    ensures var prefix := PrefixBytes(f).value;
            |prefix| == 2 && prefix[0] / 64 % 2 == 1 && (TwoBytePrefix(prefix[0], prefix[1]) == f <==> f < 0x4000)
  {
    var (high, low) := (f / 256, f % 256);
    var (a: int, b: int) := (low / 4 + 64, high % 64 + 64 * Or2(high / 64, f % 4));
    assert PrefixBytes(f) == Success([a, b]);
    assert a % 64 == low / 4 && a / 64 == 1;
    if f < 0x4000 {
      assert high / 64 == 0 && high % 64 == high;
      assert f % 4 == low % 4 && low / 4 * 4 + low % 4 == low;
    }
  }

  /** The prefix a decoder reads back from an encoder's bytes is the encoder's below 2^14, and another one above. */
  lemma PrefixReadBack(f: int, rest: bytes)
    requires 0 <= f < 0x1_0000 && |rest| == 34
    ensures var prefix := PrefixBytes(f).value;
            && ReadPrefix(prefix + rest).Success? && ReadPrefix(prefix + rest).value.0 == |prefix|
            && (ReadPrefix(prefix + rest).value.1 == f <==> f < 0x4000)
  {
    var prefix := PrefixBytes(f).value;
    if f >= 64 {
      TwoBytesReadBack(f);
      assert (prefix + rest)[0] == prefix[0] && (prefix + rest)[1] == prefix[1];
    }
  }

  /** The raw address of a key: prefix, key, check bytes. */
  function RawAddress(prefix: bytes, key: bytes, checksum: Checksum): bytes {
    prefix + key + CheckBytes(checksum, prefix + key)
  }

  /** An address with good check bytes decodes for the network its prefix reads as, and for any network. */
  lemma DecodeOfRaw(prefix: bytes, key: bytes, network: int, f: Option<int>, checksum: Checksum)
    requires |key| == 32 && ReadPrefix(RawAddress(prefix, key, checksum)) == Success((|prefix|, network))
    ensures Ss58Decode(Encoded58(RawAddress(prefix, key, checksum)), f, checksum)
            == if f.Some? && network != f.value then Failure(WrongNetwork(network)) else Success(key)
  {
    var raw := RawAddress(prefix, key, checksum);
    Decode58OfEncode58(raw);
    assert raw[..|raw| - 2] == prefix + key && raw[|raw| - 2..] == CheckBytes(checksum, prefix + key);
    assert raw[|prefix|..|raw| - 2] == key;
  }

  /** Decoding an encoded key gives the key back exactly for the networks that fit the two-byte form, 0 to 16383. */
  lemma DecodeOfEncode(publicKey: bytes, f: int, checksum: Checksum, address: string)
    requires Ss58Encode(publicKey, f, checksum) == Success(address)
    ensures Ss58Decode(address, Some(f), checksum) == Success(publicKey) <==> f < 0x4000
    ensures Ss58Decode(address, None, checksum) == Success(publicKey)
  {
    var prefix := PrefixBytes(f).value;
    var raw := RawAddress(prefix, publicKey, checksum);
    assert raw == prefix + (publicKey + CheckBytes(checksum, prefix + publicKey));
    PrefixReadBack(f, publicKey + CheckBytes(checksum, prefix + publicKey));
    var network := ReadPrefix(raw).value.1;
    DecodeOfRaw(prefix, publicKey, network, Some(f), checksum);
    DecodeOfRaw(prefix, publicKey, network, None, checksum);
  }

  /** The bytes before the key of an address for a network below 2^14. */
  function NetworkBytes(f: nat): bytes
    requires f < 0x4000
  {
    if f < 64 then [f] else [0x40 + f % 256 / 4, 64 * (f % 4) + f / 256]
  }

  /** An address is the base-58 text of network bytes, key and the check bytes of both; only a key of 32 bytes and a network
      that fits two bytes have one. */
  lemma AddressExactly(publicKey: bytes, f: int, checksum: Checksum)
    ensures Ss58Encode(publicKey, f, checksum).Success? <==> |publicKey| == 32 && 0 <= f < 0x1_0000
    ensures |publicKey| == 32 && 0 <= f < 0x4000 ==>
              var front := NetworkBytes(f) + publicKey;
              Decoded58(Ss58Encode(publicKey, f, checksum).value) == Success(front + [checksum(front).0, checksum(front).1])
  {
    if |publicKey| == 32 && 0 <= f < 0x4000 {
      NetworkSplit(f);
      var front := NetworkBytes(f) + publicKey;
      Decode58OfEncode58(front + [checksum(front).0, checksum(front).1]);
    }
  }

  lemma NetworkSplit(f: nat)
    requires f < 0x4000
    ensures PrefixBytes(f) == Success(NetworkBytes(f))
  {
    if f >= 64 {
      var (p, q, r) := (f % 256 / 4, f % 4, f / 256);
      assert f % 256 % 4 == q;
      TwoBytesOf(p, q, r, f);
    }
  }

  /** The one form of a raw address the encoder writes for its network: one byte below 64, two bytes from 64 with the top
      bit clear. */
  predicate CanonicalPrefix(raw: bytes, f: int) {
    (|raw| == 35 && f < 64) || (|raw| == 36 && f >= 64 && raw[0] < 128)
  }

  lemma ByteParts(r: int, d: int)
    requires 0 <= d < 256
    ensures (d + r * 256) / 256 == r && (d + r * 256) % 256 == d
  {
  }

  lemma QuarterRemainder(p: int, q: int)
    requires 0 <= q < 4
    ensures (p * 4 + q) % 4 == q
  {
  }

  /** The quotients and remainders of a two-byte network, from the three parts it is put together from. */
  lemma NetworkParts(p: int, q: int, r: int, f: int)
    requires 0 <= p < 64 && 0 <= q < 4 && 0 <= r < 64 && f == p * 4 + q + r * 256
    ensures 0 <= f < 0x4000 && f / 256 == r && f % 256 == p * 4 + q && f % 4 == q
  {
    ByteParts(r, p * 4 + q);
    QuarterRemainder(p + 64 * r, q);
  }

  lemma TwoBytesOf(p: int, q: int, r: int, f: int)
    requires 0 <= p < 64 && 0 <= q < 4 && 0 <= r < 64 && f == p * 4 + q + r * 256 >= 64
    ensures PrefixBytes(f) == Success([p + 64, r + 64 * q])
  {
    NetworkParts(p, q, r, f);
    assert (p * 4 + q) / 4 == p && r / 64 == 0 && r % 64 == r;
    assert Or2(0, q) == q;
  }

  /** The encoder writes two bytes back exactly when they are the canonical form. */
  lemma TwoByteForm(a: int, b: int, f: int)
    requires 0 <= a < 256 && 0 <= b < 256 && a / 64 % 2 == 1 && f == TwoBytePrefix(a, b)
    ensures 0 <= f < 0x4000
    ensures PrefixBytes(f) == Success([a, b]) <==> f >= 64 && a < 128
  {
    var (p, q, r) := (a % 64, b / 64, b % 64);
    NetworkParts(p, q, r, f);
    if f >= 64 {
      TwoBytesOf(p, q, r, f);
      assert a == a / 64 * 64 + p && b == 64 * q + r;
    } else {
      assert |PrefixBytes(f).value| == 1;
    }
  }

  lemma PrefixIsCanonical(raw: bytes, f: int)
    requires ReadPrefix(raw).Success? && ReadPrefix(raw).value.1 == f
    ensures 0 <= f < 0x4000
    ensures PrefixBytes(f) == Success(raw[..ReadPrefix(raw).value.0]) <==> CanonicalPrefix(raw, f)
  {
    if |raw| == 36 {
      TwoByteForm(raw[0], raw[1], f);
      assert raw[..2] == [raw[0], raw[1]];
    } else {
      assert raw[..1] == [raw[0]];
    }
  }

  /** An accepted raw address is its prefix, its key and their check bytes. */
  lemma AccountParts(raw: bytes, f: int, checksum: Checksum, key: bytes)
    requires ReadAccount(raw, Some(f), checksum) == Success(key)
    ensures ReadPrefix(raw).Success? && ReadPrefix(raw).value.0 <= |raw| && ReadPrefix(raw).value.1 == f && |key| == 32
    ensures raw == RawAddress(raw[..ReadPrefix(raw).value.0], key, checksum)
  {
    var n := ReadPrefix(raw).value.0;
    assert raw[..|raw| - 2] == raw[..n] + key;
    assert raw == raw[..|raw| - 2] + raw[|raw| - 2..];
  }

  lemma PrefixOfRaw(p: bytes, q: bytes, key: bytes, checksum: Checksum)
    ensures RawAddress(p, key, checksum) == RawAddress(q, key, checksum) <==> p == q
  {
    var (x, y) := (RawAddress(p, key, checksum), RawAddress(q, key, checksum));
    assert x[..|p|] == p && y[..|q|] == q;
    if x == y { assert |p| == |q|; }
  }

  lemma SameText(a: bytes, b: bytes)
    ensures Encoded58(a) == Encoded58(b) <==> a == b
  {
    Decode58OfEncode58(a);
    Decode58OfEncode58(b);
  }

  /** An accepted address is the encoder's own text for its key and network exactly when its prefix is in canonical form:
      other accepted spellings of the same account exist, and these are all of them. */
  lemma EncodeOfDecode(address: string, f: int, checksum: Checksum, key: bytes)
    requires Ss58Decode(address, Some(f), checksum) == Success(key)
    ensures Ss58Encode(key, f, checksum) == Success(address) <==> CanonicalPrefix(Decoded58(address).value, f)
  {
    var raw := Decoded58(address).value;
    AccountParts(raw, f, checksum, key);
    PrefixIsCanonical(raw, f);
    RawEncodes(raw, raw[..ReadPrefix(raw).value.0], f, checksum, key);
    Encode58OfDecode58(address);
  }

  /** The encoder's text for a key and network is that of a raw address exactly when it writes the same prefix. */
  lemma RawEncodes(raw: bytes, prefix: bytes, f: int, checksum: Checksum, key: bytes)
    requires |key| == 32 && raw == RawAddress(prefix, key, checksum)
    ensures Ss58Encode(key, f, checksum) == Success(Encoded58(raw)) <==> PrefixBytes(f) == Success(prefix)
  {
    if PrefixBytes(f).Success? {
      var own := PrefixBytes(f).value;
      PrefixOfRaw(own, prefix, key, checksum);
      SameText(RawAddress(own, key, checksum), raw);
    }
  }

  /** Every key has such another spelling: network 0 in two bytes. */
  lemma LongFormAccepted(key: bytes, checksum: Checksum)
    requires |key| == 32
    ensures exists address :: Ss58Decode(address, Some(0), checksum) == Success(key)
                              && Ss58Encode(key, 0, checksum) != Success(address)
  {
    var raw := RawAddress([0x40, 0], key, checksum);
    var address := Encoded58(raw);
    assert raw[0] == 0x40 && raw[1] == 0;
    DecodeOfRaw([0x40, 0], key, 0, Some(0), checksum);
    assert !CanonicalPrefix(Decoded58(address).value, 0) by { Decode58OfEncode58(raw); }
    EncodeOfDecode(address, 0, checksum, key);
  }
}
