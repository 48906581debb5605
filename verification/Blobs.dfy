/**
  Chunked authenticated encryption of media blobs. Version 1 seals the plaintext; version 2 seals a stream that carries the
  plaintext's length and zeros up to its PADMÉ bucket.

  The cipher is a pair of functions and a log of what was sealed under the key. `Ideal` says that it opens what is in the log
  and nothing else: a forged, moved or relabelled chunk does not open.
 */
module Blobs {
  import opened Digits
  import opened Padding
  import opened Wrappers

  const MAGIC: bytes := [75, 85, 78, 79, 66, 49] // "KUNOB1"
  const V1 := 1
  const V2 := 2
  const MAX_CHUNK := 64 * 0x10_0000
  const TAG_LEN := 16
  const PREFIX_LEN := 7
  const LENGTH_LEN := 8
  const HEADER_LEN := 18

  datatype BlobError =
    | UnknownVersion | ChunkSizeOutOfRange | BadPrefix | TooManyChunks | LengthTooLarge
    | TooShort | NotABlob | FailedAuthentication | NoLength | LengthDoesNotFit | WrongBucket | NonZeroPadding

  // ------------------------------------------------------------ the padded stream

  function PaddedStreamLength(plaintextLength: nat): nat {
    Padme(LENGTH_LEN + plaintextLength)
  }

  function PadStream(plaintext: bytes): Result<bytes, BlobError> {
    if |plaintext| >= 0x1_0000_0000_0000_0000 then Failure(LengthTooLarge)
    else
      PadmeCovers(LENGTH_LEN + |plaintext|);
      Success(U64(|plaintext|) + plaintext + Zeros(PaddedStreamLength(|plaintext|) - LENGTH_LEN - |plaintext|))
  }

  function UnpadStream(stream: bytes): Result<bytes, BlobError> {
    if |stream| < LENGTH_LEN then Failure(NoLength)
    else
      var end := LENGTH_LEN + FromBytes(stream[..LENGTH_LEN]);
      if end > |stream| then Failure(LengthDoesNotFit)
      else if Padme(end) != |stream| then Failure(WrongBucket)
      else if !AllZero(stream[end..]) then Failure(NonZeroPadding)
      else Success(stream[LENGTH_LEN..end])
  }

  lemma UnpadOfPad(plaintext: bytes)
    requires PadStream(plaintext).Success?
    ensures UnpadStream(PadStream(plaintext).value) == Success(plaintext)
  {
    var s := PadStream(plaintext).value;
    PadmeCovers(LENGTH_LEN + |plaintext|);
    U64RoundTrip(|plaintext|);
    assert s[..LENGTH_LEN] == U64(|plaintext|);
    assert s[LENGTH_LEN..LENGTH_LEN + |plaintext|] == plaintext;
  }

  lemma ThreeParts(s: bytes, a: nat, b: nat)
    requires a <= b <= |s|
    ensures s == s[..a] + s[a..b] + s[b..]
  {
  }

  lemma PadOfUnpad(stream: bytes)
    requires UnpadStream(stream).Success?
    ensures PadStream(UnpadStream(stream).value) == Success(stream)
  {
    var plaintext := UnpadStream(stream).value;
    U64OfBytes(stream[..LENGTH_LEN]);
    assert |plaintext| == FromBytes(stream[..LENGTH_LEN]);
    var end := LENGTH_LEN + |plaintext|;
    assert stream[end..] == Zeros(|stream| - end);
    ThreeParts(stream, LENGTH_LEN, end);
  }

  /** A stream is accepted exactly when it is the padded stream of what it returns. */
  lemma UnpadIsExact(stream: bytes, plaintext: bytes)
    ensures UnpadStream(stream) == Success(plaintext) <==> PadStream(plaintext) == Success(stream)
  {
    if UnpadStream(stream) == Success(plaintext) { PadOfUnpad(stream); }
    if PadStream(plaintext) == Success(stream) { UnpadOfPad(plaintext); }
  }

  /** A padded stream is the length in eight big-endian bytes, the plaintext, and zeros up to the bucket of both; only a
      length that eight bytes hold has one. */
  lemma PaddedStreamIs(plaintext: bytes)
    ensures PadStream(plaintext).Success? <==> |plaintext| < 0x1_0000_0000_0000_0000
    ensures PadStream(plaintext).Success? ==>
              var (s, n) := (PadStream(plaintext).value, |plaintext|);
              && |s| == Padme(8 + n) >= 8 + n
              && FromBytes(s[..8]) == n && s[8..8 + n] == plaintext
              && forall i :: 8 + n <= i < |s| ==> s[i] == 0
  {
    if |plaintext| < 0x1_0000_0000_0000_0000 {
      PadmeCovers(8 + |plaintext|);
      U64RoundTrip(|plaintext|);
      var s := PadStream(plaintext).value;
      assert s[..8] == U64(|plaintext|);
    }
  }

  // ------------------------------------------------------------ chunks

  /** Authenticated encryption under one blob key: nonce, data and header to ciphertext and back. */
  datatype Aead = Aead(seal: (bytes, bytes, bytes) -> bytes, open: (bytes, bytes, bytes) -> Option<bytes>)

  /** What one call of the cipher seals: data, under a nonce and a header that is authenticated with it. */
  datatype Message = Message(nonce: bytes, data: bytes, header: bytes)

  /** Sealing adds a tag. */
  ghost predicate Tagged(aead: Aead) {
    forall n, p, h :: |aead.seal(n, p, h)| == |p| + TAG_LEN
  }

  /** What the log holds opens to its data, and what opens is the sealed form of a message in the log. */
  ghost predicate Ideal(aead: Aead, log: set<Message>) {
    && Tagged(aead)
    && (forall m :: m in log ==> aead.open(m.nonce, aead.seal(m.nonce, m.data, m.header), m.header) == Some(m.data))
    && (forall n, c, h :: aead.open(n, c, h).Some? ==>
          c == aead.seal(n, aead.open(n, c, h).value, h) && Message(n, aead.open(n, c, h).value, h) in log)
  }

  /** Whatever was sealed, the assumption can be met: append a constant tag, and look messages up in the log. */
  lemma SomeCipherIsIdeal(log: set<Message>) returns (aead: Aead)
    ensures Ideal(aead, log)
  {
    var tag := Zeros(TAG_LEN);
    var seal := (n: bytes, p: bytes, h: bytes) => p + tag;
    var open := (n: bytes, c: bytes, h: bytes) =>
      if |c| >= TAG_LEN && c[|c| - TAG_LEN..] == tag && Message(n, c[..|c| - TAG_LEN], h) in log
        then Some(c[..|c| - TAG_LEN]) else None;
    forall m | m in log ensures open(m.nonce, seal(m.nonce, m.data, m.header), m.header) == Some(m.data) {
      assert (m.data + tag)[|m.data|..] == tag && (m.data + tag)[..|m.data|] == m.data;
    }
    forall n: bytes, c: bytes, h: bytes | open(n, c, h).Some? ensures c == seal(n, open(n, c, h).value, h) {
    }
    aead := Aead(seal, open);
  }

  function Nonce(prefix: bytes, index: nat, final: bool): bytes {
    prefix + U32(index) + (if final then [1] else [0])
  }

  /** How many chunks a stream of this length takes; an empty stream takes one. */
  function ChunkCount(length: nat, size: nat): (n: nat)
    requires size > 0
  {
    if length <= size then 1 else 1 + ChunkCount(length - size, size)
  }

  /** The sealed chunks of a stream, from chunk `index` on. */
  function SealChunks(aead: Aead, stream: bytes, size: nat, index: nat, prefix: bytes, header: bytes): bytes
    requires size > 0
    decreases |stream|
  {
    if |stream| <= size then aead.seal(Nonce(prefix, index, true), stream, header)
    else aead.seal(Nonce(prefix, index, false), stream[..size], header)
         + SealChunks(aead, stream[size..], size, index + 1, prefix, header)
  }

  /** What sealing a stream seals, from chunk `index` on. */
  function ChunksOf(stream: bytes, size: nat, index: nat, prefix: bytes, header: bytes): set<Message>
    requires size > 0
    decreases |stream|
  {
    if |stream| <= size then {Message(Nonce(prefix, index, true), stream, header)}
    else {Message(Nonce(prefix, index, false), stream[..size], header)}
         + ChunksOf(stream[size..], size, index + 1, prefix, header)
  }

  /** The stream inside sealed chunks, from chunk `index` on. */
  function OpenChunks(aead: Aead, body: bytes, size: nat, index: nat, prefix: bytes, header: bytes): Option<bytes>
    requires size > 0
    decreases |body|
  {
    var step := size + TAG_LEN;
    if |body| <= step then aead.open(Nonce(prefix, index, true), body, header)
    else
      match aead.open(Nonce(prefix, index, false), body[..step], header)
      case None => None
      case Some(first) =>
        match OpenChunks(aead, body[step..], size, index + 1, prefix, header)
        case None => None
        case Some(rest) => Some(first + rest)
  }

  function Header(version: byte, chunkSize: nat, prefix: bytes): bytes {
    MAGIC + [version] + U32(chunkSize) + prefix
  }

  function EncryptStream(aead: Aead, stream: bytes, chunkSize: int, version: byte, prefix: bytes): Result<bytes, BlobError> {
    if !(0 < chunkSize <= MAX_CHUNK) then Failure(ChunkSizeOutOfRange)
    else if |prefix| != PREFIX_LEN then Failure(BadPrefix)
    else if ChunkCount(|stream|, chunkSize) > 0x1_0000_0000 then Failure(TooManyChunks)
    else
      var header := Header(version, chunkSize, prefix);
      Success(header + SealChunks(aead, stream, chunkSize, 0, prefix, header))
  }

  function StreamOf(plaintext: bytes, version: int): Result<bytes, BlobError> {
    if version != V1 && version != V2 then Failure(UnknownVersion)
    else if version == V2 then PadStream(plaintext)
    else Success(plaintext)
  }

  function PlaintextOf(stream: bytes, version: int): Result<bytes, BlobError> {
    if version == V1 then Success(stream) else UnpadStream(stream)
  }

  /** Seals a plaintext; `prefix` is the random nonce prefix. */
  function EncryptBlob(aead: Aead, plaintext: bytes, chunkSize: int, version: int, prefix: bytes): Result<bytes, BlobError> {
    match StreamOf(plaintext, version)
    case Failure(e) => Failure(e)
    case Success(stream) => EncryptStream(aead, stream, chunkSize, version, prefix)
  }

  function DecryptBlob(aead: Aead, blob: bytes): Result<bytes, BlobError> {
    if |blob| < HEADER_LEN + TAG_LEN then Failure(TooShort)
    else
      var (version, chunkSize, prefix) := (blob[6], FromBytes(blob[7..11]), blob[11..18]);
      if blob[..6] != MAGIC || (version != V1 && version != V2) || !(0 < chunkSize <= MAX_CHUNK) then Failure(NotABlob)
      else if ChunkCount(|blob| - HEADER_LEN, chunkSize + TAG_LEN) > 0x1_0000_0000 then Failure(TooManyChunks)
      else
        match OpenChunks(aead, blob[HEADER_LEN..], chunkSize, 0, prefix, blob[..HEADER_LEN])
        case None => Failure(FailedAuthentication)
        case Some(stream) => PlaintextOf(stream, version)
  }

  /** What the gateway, the miner and receipts see of a blob's size. */
  function SealedSize(plaintextLength: nat, chunkSize: nat, version: int): Result<nat, BlobError>
    requires chunkSize > 0
  {
    if version != V1 && version != V2 then Failure(UnknownVersion)
    else
      var stream := if version == V1 then plaintextLength else PaddedStreamLength(plaintextLength);
      var ceiling := (stream + chunkSize - 1) / chunkSize;
      var chunks := if ceiling > 1 then ceiling else 1;
      Success(HEADER_LEN + stream + TAG_LEN * chunks)
  }

  lemma {:induction false} ChunkCountIsCeiling(length: nat, size: nat)
    requires size > 0
    ensures ChunkCount(length, size) == if length <= size then 1 else (length + size - 1) / size
    ensures length > 0 ==> ChunkCount(length, size) == (length + size - 1) / size
  {
    if length > size {
      ChunkCountIsCeiling(length - size, size);
      CeilingStep(length, size);
    } else if length > 0 {
      CeilingOne(length, size);
    }
  }

  lemma CeilingOne(length: nat, size: nat)
    requires 0 < length <= size
    ensures (length + size - 1) / size == 1
  {
    DivModUniqueAny(1, length - 1, size);
  }

  lemma CeilingStep(length: nat, size: nat)
    requires 0 < size < length
    ensures (length + size - 1) / size == 1 + (length - 1) / size
    ensures (length - size + size - 1) / size == (length - 1) / size
  {
    var (q, r) := ((length - 1) / size, (length - 1) % size);
    assert length - 1 == q * size + r;
    MulSuccessor(q, size);
    DivModUniqueAny(q + 1, r, size);
  }

  lemma DivModUniqueAny(q: nat, d: int, size: nat)
    requires 0 <= d < size
    ensures (q * size + d) / size == q && (q * size + d) % size == d
  {
    if size >= 2 { DivModUnique(q, d, size); }
  }

  // ------------------------------------------------------------ round trip, size, canonical form

  lemma {:induction false} SealedLength(aead: Aead, stream: bytes, size: nat, index: nat, prefix: bytes, header: bytes)
    requires Tagged(aead) && size > 0
    ensures |SealChunks(aead, stream, size, index, prefix, header)| == |stream| + TAG_LEN * ChunkCount(|stream|, size)
    decreases |stream|
  {
    if |stream| > size { SealedLength(aead, stream[size..], size, index + 1, prefix, header); }
  }

  /** Opening undoes sealing, chunk by chunk, and the sealed length is the stream's plus one tag a chunk. */
  lemma {:induction false} OpenOfSeal(
    aead: Aead, log: set<Message>, stream: bytes, size: nat, index: nat, prefix: bytes, header: bytes
  )
    requires Ideal(aead, log) && size > 0 && ChunksOf(stream, size, index, prefix, header) <= log
    ensures var body := SealChunks(aead, stream, size, index, prefix, header);
            && OpenChunks(aead, body, size, index, prefix, header) == Some(stream)
            && |body| == |stream| + TAG_LEN * ChunkCount(|stream|, size)
            && ChunkCount(|body|, size + TAG_LEN) == ChunkCount(|stream|, size)
    decreases |stream|
  {
    SealedLength(aead, stream, size, index, prefix, header);
    if |stream| > size {
      var (first, rest) := (stream[..size], stream[size..]);
      var sealed := aead.seal(Nonce(prefix, index, false), first, header);
      var tail := SealChunks(aead, rest, size, index + 1, prefix, header);
      OpenOfSeal(aead, log, rest, size, index + 1, prefix, header);
      LoggedOpens(aead, log, Message(Nonce(prefix, index, false), first, header));
      assert (sealed + tail)[..size + TAG_LEN] == sealed && (sealed + tail)[size + TAG_LEN..] == tail;
      assert stream == first + rest;
    } else {
      LoggedOpens(aead, log, Message(Nonce(prefix, index, true), stream, header));
    }
  }

  lemma LoggedOpens(aead: Aead, log: set<Message>, m: Message)
    requires Ideal(aead, log) && m in log
    ensures aead.open(m.nonce, aead.seal(m.nonce, m.data, m.header), m.header) == Some(m.data)
    ensures |aead.seal(m.nonce, m.data, m.header)| == |m.data| + TAG_LEN
  {
  }

  /** The last chunk of a body of more than one chunk carries no data: a form that opens but that sealing never produces. */
  predicate EmptyFinalChunk(bodyLength: nat, size: nat) {
    bodyLength > size + TAG_LEN && bodyLength % (size + TAG_LEN) == TAG_LEN
  }

  lemma ModStep(length: nat, step: nat)
    requires 0 < step <= length
    ensures (length - step) % step == length % step
  {
    var (q, r) := (length / step, length % step);
    assert length == q * step + r;
    assert q != 0;
    MulSuccessor(q - 1, step);
    DivModUniqueAny(q - 1, r, step);
  }

  lemma SealChunksSplit(aead: Aead, first: bytes, rest: bytes, size: nat, index: nat, prefix: bytes, header: bytes)
    requires |first| == size > 0
    ensures var body := SealChunks(aead, first + rest, size, index, prefix, header);
            if rest == [] then body == aead.seal(Nonce(prefix, index, true), first, header)
            else body == aead.seal(Nonce(prefix, index, false), first, header)
                         + SealChunks(aead, rest, size, index + 1, prefix, header)
  {
    if rest == [] {
      assert first + rest == first;
    } else {
      assert (first + rest)[..size] == first && (first + rest)[size..] == rest;
    }
  }

  lemma {:induction false} OpenedCount(
    aead: Aead, log: set<Message>, body: bytes, size: nat, index: nat, prefix: bytes, header: bytes
  )
    requires Ideal(aead, log) && size > 0
    requires OpenChunks(aead, body, size, index, prefix, header).Some?
    ensures ChunkCount(|OpenChunks(aead, body, size, index, prefix, header).value|, size) <= ChunkCount(|body|, size + TAG_LEN)
    decreases |body|
  {
    var step := size + TAG_LEN;
    if |body| > step { OpenedCount(aead, log, body[step..], size, index + 1, prefix, header); }
  }

  /** Sealing a full chunk and what follows gives a piece and a tail exactly when something follows and seals to the tail. */
  lemma SealedInTwo(
    aead: Aead, log: set<Message>, piece: bytes, tail: bytes, first: bytes, rest: bytes, size: nat, index: nat, prefix: bytes,
    header: bytes
  )
    requires Ideal(aead, log) && |first| == size > 0 && piece == aead.seal(Nonce(prefix, index, false), first, header)
    requires tail != []
    ensures SealChunks(aead, first + rest, size, index, prefix, header) == piece + tail
            <==> rest != [] && SealChunks(aead, rest, size, index + 1, prefix, header) == tail
  {
    SealChunksSplit(aead, first, rest, size, index, prefix, header);
    if rest == [] {
      assert |aead.seal(Nonce(prefix, index, true), first, header)| == |piece|;
    } else {
      SameBehind(piece, SealChunks(aead, rest, size, index + 1, prefix, header), tail);
    }
  }

  /** What opens is what sealing the result gives back, except for an empty final chunk. */
  lemma {:induction false} SealOfOpen(
    aead: Aead, log: set<Message>, body: bytes, size: nat, index: nat, prefix: bytes, header: bytes
  )
    requires Ideal(aead, log) && size > 0
    requires OpenChunks(aead, body, size, index, prefix, header).Some?
    ensures |body| >= TAG_LEN
    ensures var stream := OpenChunks(aead, body, size, index, prefix, header).value;
            && (stream == [] <==> |body| == TAG_LEN)
            && (SealChunks(aead, stream, size, index, prefix, header) == body <==> !EmptyFinalChunk(|body|, size))
    decreases |body|
  {
    var step := size + TAG_LEN;
    if |body| > step {
      var (piece, tail) := (body[..step], body[step..]);
      var first := aead.open(Nonce(prefix, index, false), piece, header).value;
      var rest := OpenChunks(aead, tail, size, index + 1, prefix, header).value;
      assert |first| == size && piece == aead.seal(Nonce(prefix, index, false), first, header);
      assert body == piece + tail;
      SealedInTwo(aead, log, piece, tail, first, rest, size, index, prefix, header);
      SealOfOpen(aead, log, tail, size, index + 1, prefix, header);
      FinalChunkStep(|body|, size);
    }
  }

  lemma SameBehind(front: bytes, a: bytes, b: bytes)
    ensures front + a == front + b <==> a == b
  {
    if front + a == front + b { assert (front + a)[|front|..] == (front + b)[|front|..]; }
  }

  lemma FinalChunkStep(length: nat, size: nat)
    requires size > 0 && length > size + TAG_LEN
    ensures var tail := length - (size + TAG_LEN);
            EmptyFinalChunk(length, size) <==> EmptyFinalChunk(tail, size) || tail == TAG_LEN
  {
    var step := size + TAG_LEN;
    ModStep(length, step);
    var tail := length - step;
    if tail <= step {
      if tail < step {
        DivModUniqueAny(0, tail, step);
      } else {
        DivModUniqueAny(1, 0, step);
      }
    }
  }

  // ------------------------------------------------------------ whole blobs

  lemma HeaderParts(version: byte, chunkSize: nat, prefix: bytes, body: bytes)
    requires 0 < chunkSize <= MAX_CHUNK && |prefix| == PREFIX_LEN
    ensures var blob := Header(version, chunkSize, prefix) + body;
            && |Header(version, chunkSize, prefix)| == HEADER_LEN
            && blob[..6] == MAGIC && blob[6] == version && FromBytes(blob[7..11]) == chunkSize && blob[11..18] == prefix
            && blob[..HEADER_LEN] == Header(version, chunkSize, prefix) && blob[HEADER_LEN..] == body
  {
    var blob := Header(version, chunkSize, prefix) + body;
    U32RoundTrip(chunkSize);
    assert blob[7..11] == U32(chunkSize);
  }

  lemma HeaderOfParts(blob: bytes)
    requires |blob| >= HEADER_LEN && blob[..6] == MAGIC
    ensures blob == Header(blob[6], FromBytes(blob[7..11]), blob[11..18]) + blob[HEADER_LEN..]
  {
    U32OfBytes(blob[7..11]);
    assert blob == blob[..6] + [blob[6]] + blob[7..11] + blob[11..18] + blob[18..];
  }

  lemma StreamSize(stream: nat, chunkSize: nat)
    requires chunkSize > 0
    ensures var ceiling := (stream + chunkSize - 1) / chunkSize;
            ChunkCount(stream, chunkSize) == if ceiling > 1 then ceiling else 1
  {
    ChunkCountIsCeiling(stream, chunkSize);
    if stream == 0 { DivModUniqueAny(0, chunkSize - 1, chunkSize); }
  }

  lemma DecryptOfEncryptStream(aead: Aead, log: set<Message>, stream: bytes, chunkSize: int, version: byte, prefix: bytes)
    requires Ideal(aead, log) && (version == V1 || version == V2)
    requires EncryptStream(aead, stream, chunkSize, version, prefix).Success?
    requires ChunksOf(stream, chunkSize, 0, prefix, Header(version, chunkSize, prefix)) <= log
    ensures var blob := EncryptStream(aead, stream, chunkSize, version, prefix).value;
            && DecryptBlob(aead, blob) == PlaintextOf(stream, version)
            && |blob| == HEADER_LEN + |stream| + TAG_LEN * ChunkCount(|stream|, chunkSize)
  {
    var header := Header(version, chunkSize, prefix);
    var body := SealChunks(aead, stream, chunkSize, 0, prefix, header);
    assert |header| == HEADER_LEN by { HeaderParts(version, chunkSize, prefix, body); }
    OpenOfSeal(aead, log, stream, chunkSize, 0, prefix, header);
    DecryptOfParts(aead, version, chunkSize, prefix, body);
  }

  /** What is decrypted of a header and a body behind it. */
  lemma DecryptOfParts(aead: Aead, version: byte, chunkSize: int, prefix: bytes, body: bytes)
    requires 0 < chunkSize <= MAX_CHUNK && |prefix| == PREFIX_LEN && (version == V1 || version == V2) && |body| >= TAG_LEN
    requires ChunkCount(|body|, chunkSize + TAG_LEN) <= 0x1_0000_0000
    ensures var header := Header(version, chunkSize, prefix);
            DecryptBlob(aead, header + body) == match OpenChunks(aead, body, chunkSize, 0, prefix, header)
                                                case None => Failure(FailedAuthentication)
                                                case Some(stream) => PlaintextOf(stream, version)
  {
    HeaderParts(version, chunkSize, prefix, body);
  }

  /** The two framings undo each other, for either version. */
  lemma StreamIsExact(stream: bytes, plaintext: bytes, version: int)
    requires version == V1 || version == V2
    ensures StreamOf(plaintext, version) == Success(stream) <==> PlaintextOf(stream, version) == Success(plaintext)
  {
    UnpadIsExact(stream, plaintext);
  }

  lemma StreamLength(plaintext: bytes, version: int)
    requires StreamOf(plaintext, version).Success?
    ensures |StreamOf(plaintext, version).value| == if version == V1 then |plaintext| else PaddedStreamLength(|plaintext|)
  {
    PadmeCovers(LENGTH_LEN + |plaintext|);
  }

  /** What sealing a blob seals. */
  function BlobChunks(plaintext: bytes, chunkSize: int, version: int, prefix: bytes): set<Message> {
    match StreamOf(plaintext, version)
    case Failure(_) => {}
    case Success(stream) =>
      if chunkSize <= 0 then {} else ChunksOf(stream, chunkSize, 0, prefix, Header(version, chunkSize, prefix))
  }

  /** Whatever is sealed decrypts to the same plaintext, in both versions and for every chunk size. */
  lemma DecryptOfEncrypt(
    aead: Aead, log: set<Message>, plaintext: bytes, chunkSize: int, version: int, prefix: bytes, blob: bytes
  )
    requires Ideal(aead, log) && BlobChunks(plaintext, chunkSize, version, prefix) <= log
    requires EncryptBlob(aead, plaintext, chunkSize, version, prefix) == Success(blob)
    ensures DecryptBlob(aead, blob) == Success(plaintext)
  {
    var stream := StreamOf(plaintext, version).value;
    assert PlaintextOf(stream, version) == Success(plaintext) by { StreamIsExact(stream, plaintext, version); }
    assert EncryptStream(aead, stream, chunkSize, version, prefix) == Success(blob);
    assert DecryptBlob(aead, blob) == PlaintextOf(stream, version) by {
      DecryptOfEncryptStream(aead, log, stream, chunkSize, version, prefix);
    }
  }

  lemma StreamBlobLength(aead: Aead, log: set<Message>, stream: bytes, chunkSize: int, version: byte, prefix: bytes)
    requires Ideal(aead, log) && EncryptStream(aead, stream, chunkSize, version, prefix).Success?
    ensures |EncryptStream(aead, stream, chunkSize, version, prefix).value|
            == HEADER_LEN + |stream| + TAG_LEN * ChunkCount(|stream|, chunkSize)
  {
    SealedLength(aead, stream, chunkSize, 0, prefix, Header(version, chunkSize, prefix));
  }

  /** The size announced for a blob is the size it has. */
  lemma SizeOfEncrypted(
    aead: Aead, log: set<Message>, plaintext: bytes, chunkSize: int, version: int, prefix: bytes, blob: bytes
  )
    requires Ideal(aead, log) && chunkSize > 0
    requires EncryptBlob(aead, plaintext, chunkSize, version, prefix) == Success(blob)
    ensures SealedSize(|plaintext|, chunkSize, version) == Success(|blob|)
  {
    var stream := StreamOf(plaintext, version).value;
    assert EncryptStream(aead, stream, chunkSize, version, prefix) == Success(blob);
    StreamBlobLength(aead, log, stream, chunkSize, version, prefix);
    StreamLength(plaintext, version);
    AnnouncedSize(|plaintext|, |stream|, chunkSize, version);
  }

  lemma AnnouncedSize(plaintextLength: nat, stream: nat, chunkSize: nat, version: int)
    requires chunkSize > 0 && (version == V1 || version == V2)
    requires stream == if version == V1 then plaintextLength else PaddedStreamLength(plaintextLength)
    ensures SealedSize(plaintextLength, chunkSize, version) == Success(HEADER_LEN + stream + TAG_LEN * ChunkCount(stream, chunkSize))
  {
    StreamSize(stream, chunkSize);
  }

  lemma EncryptOfDecryptStream(aead: Aead, log: set<Message>, blob: bytes, stream: bytes)
    requires Ideal(aead, log) && |blob| >= HEADER_LEN + TAG_LEN && blob[..6] == MAGIC && 0 < FromBytes(blob[7..11]) <= MAX_CHUNK
    requires ChunkCount(|blob| - HEADER_LEN, FromBytes(blob[7..11]) + TAG_LEN) <= 0x1_0000_0000
    requires OpenChunks(aead, blob[HEADER_LEN..], FromBytes(blob[7..11]), 0, blob[11..18], blob[..HEADER_LEN]) == Some(stream)
    ensures EncryptStream(aead, stream, FromBytes(blob[7..11]), blob[6], blob[11..18]) == Success(blob)
            <==> !EmptyFinalChunk(|blob| - HEADER_LEN, FromBytes(blob[7..11]))
  {
    var (chunkSize, prefix, body, header) := (FromBytes(blob[7..11]), blob[11..18], blob[HEADER_LEN..], blob[..HEADER_LEN]);
    assert header == Header(blob[6], chunkSize, prefix) by {
      HeaderOfParts(blob);
      HeaderParts(blob[6], chunkSize, prefix, body);
    }
    OpenedCount(aead, log, body, chunkSize, 0, prefix, header);
    SealOfOpen(aead, log, body, chunkSize, 0, prefix, header);
    var again := SealChunks(aead, stream, chunkSize, 0, prefix, header);
    assert blob == header + body;
    SameBehind(header, again, body);
  }

  /** A blob that decrypts is, byte for byte, what sealing its plaintext with its own version, chunk size and prefix gives,
      if and only if its body does not end in an empty chunk. */
  lemma EncryptOfDecrypt(aead: Aead, log: set<Message>, blob: bytes, plaintext: bytes)
    requires Ideal(aead, log) && DecryptBlob(aead, blob) == Success(plaintext)
    ensures |blob| >= HEADER_LEN + TAG_LEN
    ensures EncryptBlob(aead, plaintext, FromBytes(blob[7..11]), blob[6], blob[11..18]) == Success(blob)
            <==> !EmptyFinalChunk(|blob| - HEADER_LEN, FromBytes(blob[7..11]))
  {
    var stream := OpenChunks(aead, blob[HEADER_LEN..], FromBytes(blob[7..11]), 0, blob[11..18], blob[..HEADER_LEN]).value;
    assert StreamOf(plaintext, blob[6]) == Success(stream) by { StreamIsExact(stream, plaintext, blob[6]); }
    EncryptOfDecryptStream(aead, log, blob, stream);
  }

  /** Such a blob can be made: one byte, then an empty final chunk. It opens, and sealing its plaintext gives another one. */
  lemma EmptyFinalChunkOpens()
    ensures exists aead, log, blob, plaintext ::
              && Ideal(aead, log) && DecryptBlob(aead, blob) == Success(plaintext) && EmptyFinalChunk(|blob| - HEADER_LEN, 1)
              && EncryptBlob(aead, plaintext, 1, V1, blob[11..18]) != Success(blob)
  {
    var prefix := Zeros(PREFIX_LEN);
    var header := Header(V1, 1, prefix);
    var (first, last) := (Message(Nonce(prefix, 0, false), [7], header), Message(Nonce(prefix, 1, true), [], header));
    var aead := SomeCipherIsIdeal({first, last});
    var (piece, tail) := (aead.seal(first.nonce, [7], header), aead.seal(last.nonce, [], header));
    var blob := header + (piece + tail);
    HeaderParts(V1, 1, prefix, piece + tail);
    assert (piece + tail)[..1 + TAG_LEN] == piece && (piece + tail)[1 + TAG_LEN..] == tail;
    assert first in {first, last} && last in {first, last};
    assert OpenChunks(aead, tail, 1, 1, prefix, header) == Some([]);
    assert [7] + [] == [7];
    assert OpenChunks(aead, piece + tail, 1, 0, prefix, header) == Some([7]);
    assert ChunkCount(|piece + tail|, 1 + TAG_LEN) == 2;
    EncryptOfDecrypt(aead, {first, last}, blob, [7]);
  }

  // ------------------------------------------------------------ layout

  /** Piece i of s cut every `size` bytes. */
  function Piece(s: bytes, size: nat, i: nat): bytes {
    Between(s, i * size, i * size + size)
  }

  /** `s[start:end]`. */
  function Between(s: bytes, start: int, end: int): bytes {
    if !(0 <= start <= end && start < |s|) then [] else if end >= |s| then s[start..] else s[start..end]
  }

  lemma PieceStep(first: bytes, rest: bytes, i: nat)
    requires i > 0
    ensures Piece(first + rest, |first|, i) == Piece(rest, |first|, i - 1)
  {
    var (start, size) := ((i - 1) * |first|, |first|);
    MulSuccessor(i - 1, size);
    MulMonotone(0, i - 1, size);
    Shifted(first, rest, start, start + size);
  }

  lemma Shifted(first: bytes, rest: bytes, start: nat, end: nat)
    requires start <= end
    ensures Between(first + rest, |first| + start, |first| + end) == Between(rest, start, end)
  {
  }

  lemma PieceFirst(first: bytes, rest: bytes)
    requires rest != []
    ensures Piece(first + rest, |first|, 0) == first
  {
    if first != [] { assert (first + rest)[0..|first|] == first; }
  }

  lemma PieceOnly(s: bytes, size: nat)
    requires |s| <= size
    ensures Piece(s, size, 0) == s
  {
  }

  lemma OnlyChunk(aead: Aead, stream: bytes, size: nat, index: nat, prefix: bytes, header: bytes)
    requires Tagged(aead) && 0 < size && |stream| <= size
    ensures Piece(SealChunks(aead, stream, size, index, prefix, header), size + 16, 0)
            == aead.seal(Nonce(prefix, index, true), Piece(stream, size, 0), header)
  {
    PieceOnly(stream, size);
    PieceOnly(SealChunks(aead, stream, size, index, prefix, header), size + 16);
  }

  /** The first chunk of several. */
  lemma FirstChunk(aead: Aead, stream: bytes, size: nat, index: nat, prefix: bytes, header: bytes)
    requires Tagged(aead) && 0 < size < |stream|
    ensures Piece(SealChunks(aead, stream, size, index, prefix, header), size + 16, 0)
            == aead.seal(Nonce(prefix, index, false), Piece(stream, size, 0), header)
  {
    var (first, rest) := (stream[..size], stream[size..]);
    var sealed := aead.seal(Nonce(prefix, index, false), first, header);
    var tail := SealChunks(aead, rest, size, index + 1, prefix, header);
    assert tail != [] by { SealedLength(aead, rest, size, index + 1, prefix, header); }
    assert stream == first + rest && |sealed| == size + 16;
    SamePieces(first, rest, sealed, tail, 0);
  }

  /** The others are those of the rest of the stream. */
  lemma LaterChunk(aead: Aead, stream: bytes, size: nat, index: nat, prefix: bytes, header: bytes, i: nat)
    requires Tagged(aead) && 0 < size < |stream| && i > 0
    ensures Piece(SealChunks(aead, stream, size, index, prefix, header), size + 16, i)
            == Piece(SealChunks(aead, stream[size..], size, index + 1, prefix, header), size + 16, i - 1)
    ensures Piece(stream, size, i) == Piece(stream[size..], size, i - 1)
  {
    var (first, rest) := (stream[..size], stream[size..]);
    var sealed := aead.seal(Nonce(prefix, index, false), first, header);
    var tail := SealChunks(aead, rest, size, index + 1, prefix, header);
    assert tail != [] by { SealedLength(aead, rest, size, index + 1, prefix, header); }
    assert stream == first + rest && |sealed| == size + 16;
    SamePieces(first, rest, sealed, tail, i);
  }

  /** Piece i of a sealed body is piece i of the stream, sealed under its number and whether it is the last. */
  lemma {:induction false} ChunkExactly(
    aead: Aead, stream: bytes, size: nat, index: nat, prefix: bytes, header: bytes, i: nat, last: bool
  )
    requires Tagged(aead) && size > 0 && i < ChunkCount(|stream|, size) && (last <==> i + 1 == ChunkCount(|stream|, size))
    ensures Piece(SealChunks(aead, stream, size, index, prefix, header), size + 16, i)
            == aead.seal(Nonce(prefix, index + i, last), Piece(stream, size, i), header)
    decreases |stream|
  {
    if |stream| <= size {
      OnlyChunk(aead, stream, size, index, prefix, header);
    } else if i == 0 {
      FirstChunk(aead, stream, size, index, prefix, header);
    } else {
      LaterChunk(aead, stream, size, index, prefix, header, i);
      ChunkExactly(aead, stream[size..], size, index + 1, prefix, header, i - 1, last);
    }
  }

  lemma SamePieces(first: bytes, rest: bytes, sealed: bytes, tail: bytes, i: nat)
    requires rest != [] && tail != []
    ensures Piece(first + rest, |first|, i) == if i == 0 then first else Piece(rest, |first|, i - 1)
    ensures Piece(sealed + tail, |sealed|, i) == if i == 0 then sealed else Piece(tail, |sealed|, i - 1)
  {
    if i == 0 {
      PieceFirst(first, rest);
      PieceFirst(sealed, tail);
    } else {
      PieceStep(first, rest, i);
      PieceStep(sealed, tail, i);
    }
  }

  /** A blob is "KUNOB1", the version, the chunk size in four big-endian bytes and the prefix, 18 bytes that every chunk
      authenticates, and then the sealed chunks of its stream. */
  lemma BlobIs(
    aead: Aead, plaintext: bytes, chunkSize: int, version: int, prefix: bytes, blob: bytes, i: nat
  )
    requires Tagged(aead) && EncryptBlob(aead, plaintext, chunkSize, version, prefix) == Success(blob)
    ensures |blob| >= 18 && blob[..6] == [75, 85, 78, 79, 66, 49] && blob[6] == version
    ensures FromBytes(blob[7..11]) == chunkSize > 0 && blob[11..18] == prefix
    ensures (version == 1 || version == 2) && (version == 2 ==> PadStream(plaintext).Success?)
    ensures var stream := if version == 1 then plaintext else PadStream(plaintext).value;
            var chunks := ChunkCount(|stream|, chunkSize);
            && |blob| == 18 + |stream| + 16 * chunks
            && (i < chunks ==>
                  Piece(blob[18..], chunkSize + 16, i)
                  == aead.seal(prefix + U32(i) + [if i + 1 == chunks then 1 else 0], Piece(stream, chunkSize, i), blob[..18]))
  {
    var stream := StreamOf(plaintext, version).value;
    var header := Header(version, chunkSize, prefix);
    var body := SealChunks(aead, stream, chunkSize, 0, prefix, header);
    HeaderParts(version, chunkSize, prefix, body);
    SealedLength(aead, stream, chunkSize, 0, prefix, header);
    var chunks := ChunkCount(|stream|, chunkSize);
    if i < chunks { ChunkExactly(aead, stream, chunkSize, 0, prefix, header, i, i + 1 == chunks); }
  }

  lemma {:induction false} ChunksWithin(length: nat, size: nat, most: nat)
    requires size > 0 && most > 0
    ensures ChunkCount(length, size) <= most <==> length <= most * size
    decreases most
  {
    if length > size {
      if most == 1 {
        assert ChunkCount(length - size, size) >= 1;
      } else {
        ChunksWithin(length - size, size, most - 1);
        MulSuccessor(most - 1, size);
      }
    } else {
      MulMonotone(1, most, size);
    }
  }

  /** A plaintext can be sealed exactly in version 1 or 2, with chunks of 1 byte to 64 MiB, a prefix of seven bytes, a length
      that version 2 can state, and a stream that 2^32 chunks hold. */
  lemma EncryptsExactly(aead: Aead, plaintext: bytes, chunkSize: int, version: int, prefix: bytes)
    ensures EncryptBlob(aead, plaintext, chunkSize, version, prefix).Success? <==>
            && (version == 1 || (version == 2 && |plaintext| < 0x1_0000_0000_0000_0000))
            && 1 <= chunkSize <= 64 * 1024 * 1024 && |prefix| == 7
            && (if version == 1 then |plaintext| else Padme(8 + |plaintext|)) <= 0x1_0000_0000 * chunkSize
  {
    PaddedStreamIs(plaintext);
    var length := if version == 1 then |plaintext| else Padme(8 + |plaintext|);
    if chunkSize > 0 { ChunksWithin(length, chunkSize, 0x1_0000_0000); }
  }

  // ------------------------------------------------------------ authenticity

  /** The chunk number a nonce carries. */
  function NonceIndex(nonce: bytes): nat
    requires |nonce| == PREFIX_LEN + 5
  {
    FromBytes(nonce[PREFIX_LEN..PREFIX_LEN + 4])
  }

  lemma NonceParts(prefix: bytes, index: nat, final: bool)
    requires |prefix| == PREFIX_LEN && index < 0x1_0000_0000
    ensures var nonce := Nonce(prefix, index, final);
            |nonce| == PREFIX_LEN + 5 && NonceIndex(nonce) == index && nonce[PREFIX_LEN + 4] == if final then 1 else 0
  {
    U32RoundTrip(index);
    assert Nonce(prefix, index, final)[PREFIX_LEN..PREFIX_LEN + 4] == U32(index);
  }

  /** Every chunk from `index` on is numbered from `index` on; the one numbered `index` is the first. */
  lemma {:induction false} ChunkNumbers(stream: bytes, size: nat, index: nat, prefix: bytes, header: bytes, m: Message)
    requires size > 0 && |prefix| == PREFIX_LEN && index + ChunkCount(|stream|, size) <= 0x1_0000_0000
    requires m in ChunksOf(stream, size, index, prefix, header)
    ensures m.header == header && |m.nonce| == PREFIX_LEN + 5 && NonceIndex(m.nonce) >= index
    ensures NonceIndex(m.nonce) == index ==>
              m == if |stream| <= size then Message(Nonce(prefix, index, true), stream, header)
                   else Message(Nonce(prefix, index, false), stream[..size], header)
    decreases |stream|
  {
    NonceParts(prefix, index, |stream| <= size);
    if |stream| > size && m in ChunksOf(stream[size..], size, index + 1, prefix, header) {
      ChunkNumbers(stream[size..], size, index + 1, prefix, header, m);
    }
  }

  /** Under this header the log holds, from chunk `index` on, only the chunks of this stream. */
  ghost predicate OnlyChunks(log: set<Message>, stream: bytes, size: nat, index: nat, prefix: bytes, header: bytes)
    requires size > 0
  {
    forall m :: m in log && m.header == header && |m.nonce| == PREFIX_LEN + 5 && NonceIndex(m.nonce) >= index ==>
      m in ChunksOf(stream, size, index, prefix, header)
  }

  lemma OnlyLaterChunks(log: set<Message>, stream: bytes, size: nat, index: nat, prefix: bytes, header: bytes)
    requires 0 < size < |stream| && |prefix| == PREFIX_LEN && index + 1 < 0x1_0000_0000
    requires OnlyChunks(log, stream, size, index, prefix, header)
    ensures OnlyChunks(log, stream[size..], size, index + 1, prefix, header)
  {
    NonceParts(prefix, index, false);
  }

  /** The chunk that opens at `index` is the one the stream has there, its final flag included. */
  lemma OpenedChunk(
    aead: Aead, log: set<Message>, piece: bytes, stream: bytes, size: nat, index: nat, final: bool, prefix: bytes, header: bytes
  )
    requires Ideal(aead, log) && size > 0 && |prefix| == PREFIX_LEN && index + ChunkCount(|stream|, size) <= 0x1_0000_0000
    requires OnlyChunks(log, stream, size, index, prefix, header)
    requires aead.open(Nonce(prefix, index, final), piece, header).Some?
    ensures final <==> |stream| <= size
    ensures piece == aead.seal(Nonce(prefix, index, final), if final then stream else stream[..size], header)
  {
    var m := Message(Nonce(prefix, index, final), aead.open(Nonce(prefix, index, final), piece, header).value, header);
    NonceParts(prefix, index, final);
    assert m in log;
    ChunkNumbers(stream, size, index, prefix, header, m);
    NonceParts(prefix, index, |stream| <= size);
  }

  /** Where only a stream's chunks were sealed, only the whole sealed stream opens: nothing cut off, moved or appended. */
  lemma {:induction false} OpensOnlySealed(
    aead: Aead, log: set<Message>, body: bytes, stream: bytes, size: nat, index: nat, prefix: bytes, header: bytes
  )
    requires Ideal(aead, log) && size > 0 && |prefix| == PREFIX_LEN && index + ChunkCount(|stream|, size) <= 0x1_0000_0000
    requires OnlyChunks(log, stream, size, index, prefix, header)
    requires OpenChunks(aead, body, size, index, prefix, header).Some?
    ensures body == SealChunks(aead, stream, size, index, prefix, header)
    decreases |body|
  {
    var step := size + TAG_LEN;
    if |body| <= step {
      assert |stream| <= size && body == aead.seal(Nonce(prefix, index, true), stream, header) by {
        OpenedChunk(aead, log, body, stream, size, index, true, prefix, header);
      }
    } else {
      assert size < |stream| && body[..step] == aead.seal(Nonce(prefix, index, false), stream[..size], header) by {
        OpenedChunk(aead, log, body[..step], stream, size, index, false, prefix, header);
      }
      assert body[step..] == SealChunks(aead, stream[size..], size, index + 1, prefix, header) by {
        OnlyLaterChunks(log, stream, size, index, prefix, header);
        OpensOnlySealed(aead, log, body[step..], stream[size..], size, index + 1, prefix, header);
      }
      assert body == body[..step] + body[step..];
    }
  }

  /** One call of the encryption: what it is given, and the random prefix it draws. */
  datatype Sealing = Sealing(plaintext: bytes, chunkSize: int, version: int, prefix: bytes)

  function Sealed(aead: Aead, x: Sealing): Result<bytes, BlobError> {
    EncryptBlob(aead, x.plaintext, x.chunkSize, x.version, x.prefix)
  }

  /** The calls made under one key: all went through, and no prefix was drawn twice. */
  ghost predicate UnderOneKey(aead: Aead, sealings: set<Sealing>) {
    && (forall x :: x in sealings ==> Sealed(aead, x).Success?)
    && (forall x, y :: x in sealings && y in sealings && x.prefix == y.prefix ==> x == y)
  }

  /** Any calls that go through and draw new prefixes are such, one after another. */
  lemma NextUnderKey(aead: Aead, sealings: set<Sealing>, x: Sealing)
    requires UnderOneKey(aead, sealings) && Sealed(aead, x).Success? && forall y :: y in sealings ==> y.prefix != x.prefix
    ensures UnderOneKey(aead, {}) && UnderOneKey(aead, sealings + {x})
  {
  }

  /** All they sealed. */
  function LogOf(sealings: set<Sealing>): set<Message> {
    set x, m | x in sealings && m in BlobChunks(x.plaintext, x.chunkSize, x.version, x.prefix) :: m
  }

  lemma SealingParts(aead: Aead, x: Sealing)
    requires Sealed(aead, x).Success?
    ensures StreamOf(x.plaintext, x.version).Success? && (x.version == V1 || x.version == V2)
    ensures 0 < x.chunkSize <= MAX_CHUNK && |x.prefix| == PREFIX_LEN
    ensures ChunkCount(|StreamOf(x.plaintext, x.version).value|, x.chunkSize) <= 0x1_0000_0000
    ensures var header := Header(x.version, x.chunkSize, x.prefix);
            Sealed(aead, x).value
            == header + SealChunks(aead, StreamOf(x.plaintext, x.version).value, x.chunkSize, 0, x.prefix, header)
  {
  }

  /** A message of one of the calls carries that call's header, and its prefix says which call. */
  lemma SealedUnder(aead: Aead, sealings: set<Sealing>, m: Message) returns (x: Sealing)
    requires UnderOneKey(aead, sealings) && m in LogOf(sealings)
    ensures x in sealings && m in BlobChunks(x.plaintext, x.chunkSize, x.version, x.prefix)
    ensures x.version == V1 || x.version == V2
    ensures m.header == Header(x.version, x.chunkSize, x.prefix)
    ensures |m.header| == HEADER_LEN && m.header[11..18] == x.prefix
  {
    x :| x in sealings && m in BlobChunks(x.plaintext, x.chunkSize, x.version, x.prefix);
    SealingParts(aead, x);
    var stream := StreamOf(x.plaintext, x.version).value;
    ChunkNumbers(stream, x.chunkSize, 0, x.prefix, Header(x.version, x.chunkSize, x.prefix), m);
    HeaderParts(x.version, x.chunkSize, x.prefix, []);
    assert m.header + [] == m.header;
  }

  lemma OnlyOwnChunks(aead: Aead, sealings: set<Sealing>, x: Sealing)
    requires UnderOneKey(aead, sealings) && x in sealings
    requires StreamOf(x.plaintext, x.version).Success? && x.chunkSize > 0 && (x.version == V1 || x.version == V2)
    ensures OnlyChunks(LogOf(sealings), StreamOf(x.plaintext, x.version).value, x.chunkSize, 0, x.prefix,
                       Header(x.version, x.chunkSize, x.prefix))
  {
    var header := Header(x.version, x.chunkSize, x.prefix);
    SealingParts(aead, x);
    HeaderParts(x.version, x.chunkSize, x.prefix, []);
    assert header + [] == header;
    forall m | m in LogOf(sealings) && m.header == header
      ensures m in ChunksOf(StreamOf(x.plaintext, x.version).value, x.chunkSize, 0, x.prefix, header)
    {
      var y := SealedUnder(aead, sealings, m);
      assert y == x;
    }
  }

  /** Something opens only under a header that was sealed under. */
  lemma OpenedHeader(aead: Aead, log: set<Message>, body: bytes, size: nat, index: nat, prefix: bytes, header: bytes)
    requires Ideal(aead, log) && size > 0 && OpenChunks(aead, body, size, index, prefix, header).Some?
    ensures exists m :: m in log && m.header == header
  {
    var (nonce, piece) := if |body| <= size + TAG_LEN then (Nonce(prefix, index, true), body)
                          else (Nonce(prefix, index, false), body[..size + TAG_LEN]);
    assert Message(nonce, aead.open(nonce, piece, header).value, header) in log;
  }

  lemma DecryptedWasSealed(aead: Aead, sealings: set<Sealing>, blob: bytes) returns (x: Sealing)
    requires UnderOneKey(aead, sealings) && Ideal(aead, LogOf(sealings)) && DecryptBlob(aead, blob).Success?
    ensures x in sealings && Sealed(aead, x) == Success(blob)
  {
    var (header, body, log) := (blob[..HEADER_LEN], blob[HEADER_LEN..], LogOf(sealings));
    var (chunkSize, prefix) := (FromBytes(blob[7..11]), blob[11..18]);
    OpenedHeader(aead, log, body, chunkSize, 0, prefix, header);
    var m :| m in log && m.header == header;
    x := SealedUnder(aead, sealings, m);
    SealingParts(aead, x);
    HeaderParts(x.version, x.chunkSize, x.prefix, body);
    assert blob == header + body;
    OnlyOwnChunks(aead, sealings, x);
    OpensOnlySealed(aead, log, body, StreamOf(x.plaintext, x.version).value, x.chunkSize, 0, x.prefix, header);
  }

  /** A blob opens exactly when it is one of those sealed under the key, and it opens to what was sealed: a truncated,
      reordered, extended or relabelled blob never opens. */
  lemma OnlySealedBlobsOpen(aead: Aead, sealings: set<Sealing>, blob: bytes, plaintext: bytes)
    requires UnderOneKey(aead, sealings) && Ideal(aead, LogOf(sealings))
    ensures DecryptBlob(aead, blob) == Success(plaintext)
            <==> exists x :: x in sealings && x.plaintext == plaintext && Sealed(aead, x) == Success(blob)
  {
    if DecryptBlob(aead, blob).Success? {
      var x := DecryptedWasSealed(aead, sealings, blob);
      SealingDecrypts(aead, sealings, x, blob);
    }
    if x :| x in sealings && x.plaintext == plaintext && Sealed(aead, x) == Success(blob) {
      SealingDecrypts(aead, sealings, x, blob);
    }
  }

  lemma SealingDecrypts(aead: Aead, sealings: set<Sealing>, x: Sealing, blob: bytes)
    requires Ideal(aead, LogOf(sealings)) && x in sealings && Sealed(aead, x) == Success(blob)
    ensures DecryptBlob(aead, blob) == Success(x.plaintext)
  {
    assert BlobChunks(x.plaintext, x.chunkSize, x.version, x.prefix) <= LogOf(sealings);
    DecryptOfEncrypt(aead, LogOf(sealings), x.plaintext, x.chunkSize, x.version, x.prefix, blob);
  }
}
