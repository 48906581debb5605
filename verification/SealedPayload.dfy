/** Framing and size padding of the sealed job request: bare JSON (version 1) or a power-of-two bucket (version 2). */
module SealedPayload {
  import opened Bits
  import opened Digits
  import opened Wrappers

  const PAYLOAD_V1 := 1
  const PAYLOAD_V2 := 2
  const HEADER_LEN := 5
  const MIN_PADDED := 4 * 1024
  const MAX_PADDED := 256 * 1024
  const MAX_JSON_LEN := MAX_PADDED - HEADER_LEN
  const JSON_START: set<int> := {0x7B, 0x20, 0x09, 0x0A, 0x0D}

  datatype PayloadError =
    | NegativeLength | TooLarge | UnknownFraming | TooShort | LargerThanMaximum | LengthDoesNotFit | WrongBucket | NonZeroPadding

  function Bucket(framed: nat): nat
    requires framed > 0
  {
    var p := Pow2(BitLength(framed - 1));
    if p > MIN_PADDED then p else MIN_PADDED
  }

  function PaddedPayloadLength(jsonLength: int): Result<nat, PayloadError> {
    if jsonLength < 0 then Failure(NegativeLength)
    else if jsonLength > MAX_JSON_LEN then Failure(TooLarge)
    else Success(Bucket(HEADER_LEN + jsonLength))
  }

  function PadPayload(json: bytes): Result<bytes, PayloadError> {
    var total :- PaddedPayloadLength(|json|);
    BucketBounds(HEADER_LEN + |json|);
    Success([PAYLOAD_V2] + U32(|json|) + json + Zeros(total - HEADER_LEN - |json|))
  }

  function PayloadVersion(plaintext: bytes): Option<int> {
    if plaintext == [] then None
    else if plaintext[0] == PAYLOAD_V2 then Some(PAYLOAD_V2)
    else if plaintext[0] in JSON_START then Some(PAYLOAD_V1)
    else None
  }

  function UnpadPayload(plaintext: bytes): Result<bytes, PayloadError> {
    var version := PayloadVersion(plaintext);
    if version == Some(PAYLOAD_V1) then Success(plaintext)
    else if version == None then Failure(UnknownFraming)
    else if |plaintext| < HEADER_LEN then Failure(TooShort)
    else if |plaintext| > MAX_PADDED then Failure(LargerThanMaximum)
    else
      var end := HEADER_LEN + FromBytes(plaintext[1..5]);
      if end > |plaintext| then Failure(LengthDoesNotFit)
      else if Bucket(end) != |plaintext| then Failure(WrongBucket)
      else if !AllZero(plaintext[end..]) then Failure(NonZeroPadding)
      else Success(plaintext[HEADER_LEN..end])
  }

  /** A framed length fits its bucket, and a bucket above the floor is less than twice what it holds. */
  lemma BucketBounds(framed: nat)
    requires framed > 0
    ensures framed <= Bucket(framed)
    ensures Bucket(framed) > MIN_PADDED ==> Bucket(framed) <= 2 * (framed - 1)
  {
    if framed > 1 {
      BitLengthBounds(framed - 1);
    }
  }

  /** A request is version 1 when it starts like JSON text, with "{", a space, a tab, a line feed or a carriage return, and
      version 2 when its first byte is 2; there is no other. */
  lemma VersionExactly(plaintext: bytes)
    ensures PayloadVersion(plaintext) == Some(1) <==> plaintext != [] && plaintext[0] in [123, 32, 9, 10, 13]
    ensures PayloadVersion(plaintext) == Some(2) <==> plaintext != [] && plaintext[0] == 2
    ensures PayloadVersion(plaintext) in {None, Some(1), Some(2)}
  {
  }

  /** A padded request is a 2, the length in four big-endian bytes, the JSON, and zeros up to the least of 4 KiB doubled any
      number of times that holds all that; exactly JSON of at most 256 KiB less five bytes has one. */
  lemma PaddedPayloadIs(json: bytes)
    ensures PadPayload(json).Success? <==> |json| + 5 <= 0x4_0000
    ensures PadPayload(json).Success? ==>
              var (p, n) := (PadPayload(json).value, |json|);
              && |p| >= 5 + n && p[0] == 2 && FromBytes(p[1..5]) == n && p[5..5 + n] == json
              && (forall i :: 5 + n <= i < |p| ==> p[i] == 0)
              && (exists k: nat :: |p| == 4096 * Pow2(k)) && (forall k: nat :: 4096 * Pow2(k) >= 5 + n ==> |p| <= 4096 * Pow2(k))
  {
    if PadPayload(json).Success? {
      var (p, n) := (PadPayload(json).value, |json|);
      BucketBounds(5 + n);
      U32RoundTrip(n);
      assert p[1..5] == U32(n);
      assert p[5..5 + n] == json;
      var k := SevenSizes(n);
      assert |p| == 4096 * Pow2(k);
      forall j: nat | 4096 * Pow2(j) >= 5 + n ensures |p| <= 4096 * Pow2(j) {
        LeastDoubling(|p|, n, k, j);
      }
    }
  }

  lemma LeastDoubling(size: nat, n: nat, k: nat, j: nat)
    requires size == 4096 * Pow2(k) && 4096 * Pow2(j) >= 5 + n && (size > 4096 ==> size <= 2 * (4 + n))
    ensures size <= 4096 * Pow2(j)
  {
    if j < k { Pow2Monotone(j, k - 1); } else { Pow2Monotone(k, j); }
  }

  /** Only seven sizes ever leave the sender: 4 KiB doubled at most six times. */
  lemma SevenSizes(jsonLength: int) returns (k: nat)
    requires PaddedPayloadLength(jsonLength).Success?
    ensures k <= 6 && PaddedPayloadLength(jsonLength).value == MIN_PADDED * Pow2(k)
  {
    var n := HEADER_LEN + jsonLength;
    var e := BitLength(n - 1);
    BitLengthBounds(n - 1);
    Powers();
    if e <= 12 {
      Pow2Monotone(e, 12);
      k := 0;
    } else {
      if e > 18 { Pow2Monotone(18, e - 1); }
      k := e - 12;
      Pow2Add(12, k);
      Pow2Monotone(12, e);
    }
  }

  lemma Powers()
    ensures Pow2(12) == MIN_PADDED && Pow2(18) == MAX_PADDED && Pow2(0) == 1
  {
    assert Pow2(4) == 16;
    Pow2Add(4, 4);
    Pow2Add(8, 4);
    Pow2Add(12, 4);
    Pow2Add(16, 2);
  }

  /** A padded plaintext is at most the maximum. */
  lemma PaddedFits(jsonLength: nat)
    requires jsonLength <= MAX_JSON_LEN
    ensures Bucket(HEADER_LEN + jsonLength) <= MAX_PADDED
  {
    var n := HEADER_LEN + jsonLength;
    BitLengthBounds(n - 1);
    Powers();
    if BitLength(n - 1) > 18 { Pow2Monotone(18, BitLength(n - 1) - 1); } else { Pow2Monotone(BitLength(n - 1), 18); }
  }

  lemma UnpadOfPad(json: bytes)
    requires PadPayload(json).Success?
    ensures UnpadPayload(PadPayload(json).value) == Success(json)
  {
    var p := PadPayload(json).value;
    BucketBounds(HEADER_LEN + |json|);
    PaddedFits(|json|);
    U32RoundTrip(|json|);
    assert p[1..5] == U32(|json|);
    assert p[HEADER_LEN..HEADER_LEN + |json|] == json;
  }

  lemma FourParts(plaintext: bytes, end: nat)
    requires HEADER_LEN <= end <= |plaintext| && plaintext[0] == PAYLOAD_V2
    ensures plaintext == [PAYLOAD_V2] + plaintext[1..HEADER_LEN] + plaintext[HEADER_LEN..end] + plaintext[end..]
  {
  }

  lemma PadOfUnpad(plaintext: bytes)
    requires PayloadVersion(plaintext) == Some(PAYLOAD_V2) && UnpadPayload(plaintext).Success?
    ensures PadPayload(UnpadPayload(plaintext).value) == Success(plaintext)
  {
    var json := UnpadPayload(plaintext).value;
    assert plaintext[1..5] == U32(|json|) by { U32OfBytes(plaintext[1..5]); }
    var end := HEADER_LEN + |json|;
    assert plaintext[end..] == Zeros(|plaintext| - end);
    FourParts(plaintext, end);
  }

  /** A receiver gets JSON out of a plaintext exactly when the plaintext is that JSON's padded form, or is itself a version 1
      request: no length, bucket or padding other than the sender's is accepted. */
  lemma UnpadIsExact(plaintext: bytes, json: bytes)
    ensures UnpadPayload(plaintext) == Success(json) <==>
            PadPayload(json) == Success(plaintext) || (PayloadVersion(plaintext) == Some(PAYLOAD_V1) && plaintext == json)
  {
    if PadPayload(json) == Success(plaintext) { UnpadOfPad(json); }
    if UnpadPayload(plaintext) == Success(json) && PayloadVersion(plaintext) == Some(PAYLOAD_V2) { PadOfUnpad(plaintext); }
  }
}
