/**
  The DER writer and strict reader behind the enclave binding extension of C2PA leaf certificates.

  Text fields are their UTF-8 bytes, with the validity of UTF-8 a parameter; the evidence digest is hexadecimal text.
 */
module C2paCerts {
  import opened Bits
  import opened Digits
  import opened HexText
  import opened Wrappers

  const INTEGER := 0x02
  const OCTET_STRING := 0x04
  const UTF8_STRING := 0x0C
  const SEQUENCE := 0x30
  const MAX_LENGTH := 0x1_0000_0000

  datatype BindingError =
    | Truncated | UnsupportedLength | NonMinimalLength | NotText | InvalidText | NotOneSequence | WrongStructure
    | UnsupportedVersion | NotHex | BadDigest | NegativeInteger

  // ------------------------------------------------------------ one element

  /** The length octets; `0x80 | count` is 128 + count for every count below 128. */
  function DerLength(n: nat): bytes {
    if n < 0x80 then [n]
    else var raw := Minimal(n, 256); [0x80 + |raw| % 0x80] + raw
  }

  function Tlv(tag: byte, content: bytes): bytes {
    [tag] + DerLength(|content|) + content
  }

  function Min(a: nat, b: nat): nat {
    if a < b then a else b
  }

  /** The tag, the content and the number of bytes of the element `d` starts with. */
  function ReadElement(d: bytes): (r: Result<(byte, bytes, nat), BindingError>)
    ensures r.Success? ==> 2 <= r.value.2 <= |d|
  {
    if |d| < 2 then Failure(Truncated)
    else if d[1] < 0x80 then Content(d, 2, d[1])
    else
      var count := d[1] - 0x80;
      if count == 0 || count > 4 then Failure(UnsupportedLength)
      else
        var length := FromBytes(d[2..Min(2 + count, |d|)]);
        if length < 0x80 then Failure(NonMinimalLength)
        else if |d| <= 2 then Failure(Truncated)
        else if d[2] == 0 then Failure(NonMinimalLength)
        else Content(d, 2 + count, length)
  }

  function Content(d: bytes, start: nat, length: nat): (r: Result<(byte, bytes, nat), BindingError>)
    requires 2 <= start && 2 <= |d|
    ensures r.Success? ==> 2 <= r.value.2 <= |d|
  {
    if start + length > |d| then Failure(Truncated)
    else Success((d[0], d[start..start + length], start + length))
  }

  /** The element of `data` at `offset`, with the next offset. */
  function ReadTlv(data: bytes, offset: nat): Result<(byte, bytes, nat), BindingError>
    requires offset <= |data|
  {
    match ReadElement(data[offset..])
    case Failure(e) => Failure(e)
    case Success((tag, content, size)) => Success((tag, content, offset + size))
  }

  lemma {:induction false} MinimalLength(n: nat, bound: nat)
    ensures |Minimal(n, 256)| <= bound <==> n < Pow(256, bound)
    decreases bound
  {
    PowPositive(256, bound);
    if n > 0 {
      var q := Quotient(n, 256);
      if bound > 0 {
        MinimalLength(q, bound - 1);
        if q < Pow(256, bound - 1) { MulMonotone(q + 1, Pow(256, bound - 1), 256); }
        if q >= Pow(256, bound - 1) { MulMonotone(Pow(256, bound - 1), q, 256); }
      }
    }
  }

  /** The four-octet bound of the reader: lengths below 2^32 take at most four octets. */
  lemma LengthOctets(n: nat)
    requires n >= 0x80
    ensures 1 <= |Minimal(n, 256)| && (|Minimal(n, 256)| <= 4 <==> n < MAX_LENGTH)
  {
    MinimalLength(n, 4);
    Pow256Eight();
  }

  lemma ReadLong(tag: byte, raw: bytes, content: bytes, after: bytes)
    requires 1 <= |raw| <= 4 && raw[0] != 0 && FromBytes(raw) == |content| >= 0x80
    ensures ReadElement([tag, 0x80 + |raw|] + raw + content + after) == Success((tag, content, 2 + |raw| + |content|))
  {
    var d := [tag, 0x80 + |raw|] + raw + content + after;
    assert d[2..2 + |raw|] == raw;
    assert d[2] == raw[0];
    assert d[2 + |raw|..2 + |raw| + |content|] == content;
  }

  lemma ReadShort(tag: byte, content: bytes, after: bytes)
    requires |content| < 0x80
    ensures ReadElement([tag, |content|] + content + after) == Success((tag, content, 2 + |content|))
  {
    var d := [tag, |content|] + content + after;
    assert d[2..2 + |content|] == content;
  }

  lemma LengthForm(n: nat)
    requires 0x80 <= n < MAX_LENGTH
    ensures var raw := Minimal(n, 256); 1 <= |raw| <= 4 && DerLength(n) == [0x80 + |raw|] + raw
  {
    LengthOctets(n);
  }

  /** The octets of a long length: one for their number, then the length itself without leading zeros. */
  lemma LongLength(n: nat) returns (raw: bytes)
    requires 0x80 <= n < MAX_LENGTH
    ensures 1 <= |raw| <= 4 && raw[0] != 0 && FromBytes(raw) == n
    ensures DerLength(n) == [0x80 + |raw|] + raw
  {
    raw := Minimal(n, 256);
    LengthForm(n);
    ValueOfMinimal(n, 256);
  }

  lemma WriteLong(tag: byte, content: bytes) returns (raw: bytes)
    requires 0x80 <= |content| < MAX_LENGTH
    ensures 1 <= |raw| <= 4 && raw[0] != 0 && FromBytes(raw) == |content|
    ensures Tlv(tag, content) == [tag, 0x80 + |raw|] + raw + content
  {
    raw := LongLength(|content|);
    assert [tag] + ([0x80 + |raw|] + raw) == [tag, 0x80 + |raw|] + raw;
  }

  /** The reader takes back what the writer wrote, whatever follows it, as long as the content is under 2^32 bytes. */
  lemma ReadOfWrite(tag: byte, content: bytes, after: bytes)
    requires |content| < MAX_LENGTH
    ensures ReadElement(Tlv(tag, content) + after) == Success((tag, content, |Tlv(tag, content)|))
  {
    if |content| < 0x80 {
      ReadShort(tag, content, after);
      assert Tlv(tag, content) == [tag, |content|] + content;
    } else {
      var raw := WriteLong(tag, content);
      ReadLong(tag, raw, content, after);
    }
  }

  /** What the reader accepts is exactly what the writer writes for it: no other length octets are taken. */
  lemma WriteOfRead(d: bytes, tag: byte, content: bytes, size: nat)
    requires ReadElement(d) == Success((tag, content, size))
    ensures size <= |d| && d[..size] == Tlv(tag, content) && |content| < MAX_LENGTH
  {
    if d[1] >= 0x80 {
      LengthOctetsOf(d, d[1] - 0x80, |content|);
      assert d[..size] == [tag] + ([d[1]] + d[2..size - |content|]) + content;
    } else {
      assert d[..size] == [tag] + [d[1]] + content;
    }
  }

  lemma LengthOctetsOf(d: bytes, count: nat, n: nat)
    requires 1 <= count <= 4 && 2 + count <= |d| && d[1] == 0x80 + count && d[2] != 0
    requires FromBytes(d[2..2 + count]) == n >= 0x80
    ensures DerLength(n) == [d[1]] + d[2..2 + count] && n < MAX_LENGTH
  {
    var octets := d[2..2 + count];
    assert Minimal(n, 256) == octets by { MinimalOfValue(octets, 256); }
    LengthOctets(n);
  }

  // ------------------------------------------------------------ sequences of elements

  type Item = (byte, bytes)

  function WriteAll(items: seq<Item>): bytes {
    if items == [] then [] else Tlv(items[0].0, items[0].1) + WriteAll(items[1..])
  }

  /** The elements a byte string is made of. */
  function Items(data: bytes): Result<seq<Item>, BindingError>
    decreases |data|
  {
    if data == [] then Success([])
    else
      match ReadElement(data)
      case Failure(e) => Failure(e)
      case Success((tag, content, size)) =>
        Prepend([(tag, content)], Items(data[size..]))
  }

  function Prepend(items: seq<Item>, rest: Result<seq<Item>, BindingError>): Result<seq<Item>, BindingError> {
    match rest
    case Failure(e) => Failure(e)
    case Success(more) => Success(items + more)
  }

  lemma PrependSplit(items: seq<Item>, item: Item, rest: Result<seq<Item>, BindingError>)
    ensures Prepend([], rest) == rest && Prepend(items, Success([])) == Success(items)
    ensures Prepend(items, Prepend([item], rest)) == Prepend(items + [item], rest)
  {
    assert items + [] == items;
    if rest.Success? {
      assert [] + rest.value == rest.value;
      assert items + ([item] + rest.value) == items + [item] + rest.value;
    }
  }

  lemma ItemsNext(data: bytes, offset: nat, items: seq<Item>, item: Item, end: nat)
    requires offset < |data| && ReadTlv(data, offset) == Success((item.0, item.1, end))
    ensures end <= |data|
    ensures Prepend(items, Items(data[offset..])) == Prepend(items + [item], Items(data[end..]))
  {
    assert data[offset..][end - offset..] == data[end..];
    PrependSplit(items, item, Items(data[end..]));
  }

  method ReadAll(data: bytes) returns (r: Result<seq<Item>, BindingError>)
    ensures r == Items(data)
  {
    var items: seq<Item> := [];
    var offset: nat := 0;
    assert data[0..] == data;
    PrependSplit([], (0, []), Items(data));
    while offset < |data|
      invariant offset <= |data|
      invariant Items(data) == Prepend(items, Items(data[offset..]))
    {
      var next := ReadTlv(data, offset);
      if next.Failure? {
        return Failure(next.error);
      }
      var (tag, content, end) := next.value;
      ItemsNext(data, offset, items, (tag, content), end);
      items := items + [(tag, content)];
      offset := end;
    }
    PrependSplit(items, (0, []), Success([]));
    return Success(items);
  }

  predicate Short(items: seq<Item>) {
    forall i :: 0 <= i < |items| ==> |items[i].1| < MAX_LENGTH
  }

  /** A byte string reads as a list of elements exactly when it is what writing that list gives. */
  lemma {:induction false} ItemsAreExact(data: bytes, items: seq<Item>)
    ensures Items(data) == Success(items) <==> data == WriteAll(items) && Short(items)
    decreases |data|
  {
    if data == WriteAll(items) && Short(items) {
      ItemsOfWriteAll(items);
    }
    if Items(data) == Success(items) && data != [] {
      var (tag, content, size) := ReadElement(data).value;
      WriteOfRead(data, tag, content, size);
      ItemsAreExact(data[size..], items[1..]);
      assert data == data[..size] + data[size..];
      assert items == [(tag, content)] + items[1..];
    }
  }

  lemma {:induction false} ItemsOfWriteAll(items: seq<Item>)
    requires Short(items)
    ensures Items(WriteAll(items)) == Success(items)
    decreases |items|
  {
    if items != [] {
      var rest := WriteAll(items[1..]);
      assert Items(rest) == Success(items[1..]) by { ItemsOfWriteAll(items[1..]); }
      assert items == [items[0]] + items[1..];
      assert Items(Tlv(items[0].0, items[0].1) + rest) == Success(items) by { ItemsNextWritten(items[0], rest, items[1..]); }
    }
  }

  lemma ItemsNextWritten(item: Item, rest: bytes, items: seq<Item>)
    requires |item.1| < MAX_LENGTH && Items(rest) == Success(items)
    ensures Items(Tlv(item.0, item.1) + rest) == Success([item] + items)
  {
    ReadOfWrite(item.0, item.1, rest);
    ItemsStep(Tlv(item.0, item.1), rest, item, items);
  }

  lemma ItemsStep(head: bytes, rest: bytes, item: Item, items: seq<Item>)
    requires ReadElement(head + rest) == Success((item.0, item.1, |head|)) && Items(rest) == Success(items)
    ensures Items(head + rest) == Success([item] + items)
  {
    assert (head + rest)[|head|..] == rest;
  }

  // ------------------------------------------------------------ the enclave binding

  datatype EnclaveBinding = EnclaveBinding(
    enclaveId: bytes, evidenceDigest: string, imageDigest: bytes, profiles: seq<bytes>, version: int
  )

  /** The bytes whose hexadecimal text the digest is; none when it is no such text. */
  function DigestOf(b: EnclaveBinding): bytes {
    if FromHex(b.evidenceDigest).Some? then FromHex(b.evidenceDigest).value else []
  }

  /** `int.to_bytes` with room for the sign bit. */
  function IntegerBytes(value: nat): bytes {
    Fixed(value, 256, BitLength(value) / 8 + 1)
  }

  function TextItems(texts: seq<bytes>): (items: seq<Item>)
    ensures |items| == |texts| && forall i :: 0 <= i < |texts| ==> items[i] == (UTF8_STRING, texts[i])
  {
    seq(|texts|, i requires 0 <= i < |texts| => (UTF8_STRING, texts[i]))
  }

  function BindingItems(b: EnclaveBinding): seq<Item>
    requires b.version >= 0
  {
    [(INTEGER, IntegerBytes(b.version)), (UTF8_STRING, b.enclaveId), (OCTET_STRING, DigestOf(b)),
     (UTF8_STRING, b.imageDigest), (SEQUENCE, WriteAll(TextItems(b.profiles)))]
  }

  function ToDer(b: EnclaveBinding): Result<bytes, BindingError> {
    if FromHex(b.evidenceDigest).None? then Failure(NotHex)
    else if |DigestOf(b)| != 32 then Failure(BadDigest)
    else if b.version < 0 then Failure(NegativeInteger)
    else Success(Tlv(SEQUENCE, WriteAll(BindingItems(b))))
  }

  /** The text of an element; `utf8` says which byte strings are valid UTF-8. */
  function TextOf(item: Item, utf8: bytes -> bool): Result<bytes, BindingError> {
    if item.0 != UTF8_STRING then Failure(NotText)
    else if !utf8(item.1) then Failure(InvalidText)
    else Success(item.1)
  }

  function Texts(items: seq<Item>, utf8: bytes -> bool): Result<seq<bytes>, BindingError> {
    if items == [] then Success([])
    else
      var front :- Texts(items[..|items| - 1], utf8);
      var last :- TextOf(items[|items| - 1], utf8);
      Success(front + [last])
  }

  function FromFields(fields: seq<Item>, utf8: bytes -> bool): Result<EnclaveBinding, BindingError> {
    if |fields| != 5 || fields[0].0 != INTEGER || fields[2].0 != OCTET_STRING || fields[4].0 != SEQUENCE then Failure(WrongStructure)
    else if FromBytes(fields[0].1) != 1 then Failure(UnsupportedVersion)
    else if |fields[2].1| != 32 then Failure(BadDigest)
    else
      var enclaveId :- TextOf(fields[1], utf8);
      var imageDigest :- TextOf(fields[3], utf8);
      var inner :- Items(fields[4].1);
      var profiles :- Texts(inner, utf8);
      Success(EnclaveBinding(enclaveId, ToHex(fields[2].1), imageDigest, profiles, 1))
  }

  function FromDer(data: bytes, utf8: bytes -> bool): Result<EnclaveBinding, BindingError> {
    match ReadElement(data)
    case Failure(e) => Failure(e)
    case Success((tag, content, size)) =>
      if tag != SEQUENCE || size != |data| then Failure(NotOneSequence)
      else
        match Items(content)
        case Failure(e) => Failure(e)
        case Success(fields) => FromFields(fields, utf8)
  }

  predicate AllText(texts: seq<bytes>, utf8: bytes -> bool) {
    forall i :: 0 <= i < |texts| ==> utf8(texts[i])
  }

  lemma {:induction false} TextsOfItems(texts: seq<bytes>, utf8: bytes -> bool)
    requires AllText(texts, utf8)
    ensures Texts(TextItems(texts), utf8) == Success(texts)
  {
    if texts != [] {
      var front := texts[..|texts| - 1];
      TextsOfItems(front, utf8);
      assert TextItems(texts)[..|texts| - 1] == TextItems(front);
      assert texts == front + [texts[|texts| - 1]];
    }
  }

  lemma {:induction false} ItemsOfTexts(items: seq<Item>, texts: seq<bytes>, utf8: bytes -> bool)
    requires Texts(items, utf8) == Success(texts)
    ensures items == TextItems(texts) && AllText(texts, utf8)
  {
    if items != [] {
      ItemsOfTexts(items[..|items| - 1], texts[..|texts| - 1], utf8);
      assert items == items[..|items| - 1] + [items[|items| - 1]];
    }
  }

  lemma {:induction false} ShortFromTotal(items: seq<Item>, bound: nat)
    requires |WriteAll(items)| < bound
    ensures forall i :: 0 <= i < |items| ==> |items[i].1| < bound
  {
    if items != [] { ShortFromTotal(items[1..], bound); }
  }

  lemma IntegerOne()
    ensures IntegerBytes(1) == [1]
  {
    assert BitLength(1) == 1;
    assert Fixed(1, 256, 1) == [1] by { assert Fixed(Quotient(1, 256), 256, 0) == []; }
  }

  lemma RoomForInteger(value: nat)
    ensures value < Pow(256, BitLength(value) / 8 + 1)
  {
    var octets := BitLength(value) / 8 + 1;
    PowersAgree(octets);
    if value > 0 {
      BitLengthBounds(value);
      Pow2Monotone(BitLength(value), 8 * octets);
    } else {
      PowPositive(256, octets);
    }
  }

  lemma IntegerReadBack(value: nat)
    ensures FromBytes(IntegerBytes(value)) == value
  {
    RoomForInteger(value);
    ValueOfFixed(value, 256, BitLength(value) / 8 + 1);
  }

  lemma {:induction false} PowersAgree(e: nat)
    ensures Pow(256, e) == Pow2(8 * e)
  {
    if e > 0 {
      PowersAgree(e - 1);
      assert Pow2(8) == 256 by { assert Pow2(4) == 16; }
      Pow2Add(8, 8 * (e - 1));
    }
  }

  /** What the reader has checked of the fields of an accepted binding. */
  lemma AcceptedFields(fields: seq<Item>, utf8: bytes -> bool, b: EnclaveBinding)
    requires FromFields(fields, utf8) == Success(b)
    ensures |fields| == 5 && b.version == 1 && |DigestOf(b)| == 32 && FromHex(b.evidenceDigest) == Some(DigestOf(b))
    ensures fields[0].0 == INTEGER && fields[1] == (UTF8_STRING, b.enclaveId) && fields[2] == (OCTET_STRING, DigestOf(b))
    ensures fields[3] == (UTF8_STRING, b.imageDigest) && fields[4].0 == SEQUENCE
    ensures Items(fields[4].1).Success? && Texts(Items(fields[4].1).value, utf8) == Success(b.profiles)
  {
    FromHexOfToHex(fields[2].1);
  }

  /** The fields of an accepted binding are the writer's own, but for the version's octets. */
  lemma FieldsAreExact(fields: seq<Item>, utf8: bytes -> bool, b: EnclaveBinding)
    requires FromFields(fields, utf8) == Success(b)
    ensures b.version == 1 && |DigestOf(b)| == 32 && FromHex(b.evidenceDigest).Some? && |fields| == 5
    ensures fields == [(INTEGER, fields[0].1)] + BindingItems(b)[1..]
  {
    AcceptedFields(fields, utf8, b);
    assert fields[4].1 == WriteAll(TextItems(b.profiles)) by {
      var inner := Items(fields[4].1).value;
      ItemsOfTexts(inner, b.profiles, utf8);
      ItemsAreExact(fields[4].1, inner);
    }
    var items := BindingItems(b);
    assert fields[1] == items[1] && fields[2] == items[2] && fields[3] == items[3] && fields[4] == items[4];
  }

  /** The fields of a binding, with any octets for its version. */
  function ItemsWith(octets: bytes, b: EnclaveBinding): seq<Item>
    requires b.version >= 0
  {
    [(INTEGER, octets)] + BindingItems(b)[1..]
  }

  /** The reader looks only at the value of the version's octets. */
  lemma ReadBackBinding(b: EnclaveBinding, octets: bytes, utf8: bytes -> bool)
    requires b.version >= 0 && |DigestOf(b)| == 32 && |WriteAll(ItemsWith(octets, b))| < MAX_LENGTH
    requires utf8(b.enclaveId) && utf8(b.imageDigest) && AllText(b.profiles, utf8)
    ensures FromDer(Tlv(SEQUENCE, WriteAll(ItemsWith(octets, b))), utf8)
            == if FromBytes(octets) == 1 then Success(b.(version := 1, evidenceDigest := ToHex(DigestOf(b))))
               else Failure(UnsupportedVersion)
  {
    var items := ItemsWith(octets, b);
    var content := WriteAll(items);
    assert Tlv(SEQUENCE, content) + [] == Tlv(SEQUENCE, content);
    ReadOfWrite(SEQUENCE, content, []);
    ShortFromTotal(items, MAX_LENGTH);
    assert Items(content) == Success(items) by { ItemsOfWriteAll(items); }
    assert |items[4].1| < MAX_LENGTH;
    ShortFromTotal(TextItems(b.profiles), MAX_LENGTH);
    assert Items(items[4].1) == Success(TextItems(b.profiles)) by { ItemsOfWriteAll(TextItems(b.profiles)); }
    TextsOfItems(b.profiles, utf8);
  }

  /** An element: its tag, the length octets of its content, and the content. */
  function Element(tag: byte, length: bytes, content: bytes): bytes {
    [tag] + length + content
  }

  /** Length octets: the length itself below 128, and one or two bytes behind their count below 65536. */
  lemma ShortLengths(n: nat)
    requires n < 0x1_0000
    ensures DerLength(n) ==
            if n < 128 then [n] else if n < 256 then [0x81, n] else [0x82, n / 256, n % 256]
  {
    if n >= 256 {
      TwoDigits(n / 256, n % 256);
    } else if n >= 128 {
      OneDigit(n);
    }
  }

  lemma OneDigit(low: byte)
    ensures FromBytes([low]) == low && (low > 0 ==> Minimal(low, 256) == [low])
  {
    BigEndian([], low);
    assert [] + [low] == [low];
    if low > 0 { MinimalOfValue([low], 256); }
  }

  lemma TwoDigits(high: byte, low: byte)
    requires high > 0
    ensures Minimal(256 * (high as int) + low as int, 256) == [high, low]
  {
    OneDigit(high);
    BigEndian([high], low);
    assert [high] + [low] == [high, low];
    MinimalOfValue([high, low], 256);
  }

  function ProfileElements(profiles: seq<bytes>): bytes {
    if profiles == [] then []
    else Element(0x0C, DerLength(|profiles[0]|), profiles[0]) + ProfileElements(profiles[1..])
  }

  lemma {:induction false} ProfilesWritten(profiles: seq<bytes>)
    ensures WriteAll(TextItems(profiles)) == ProfileElements(profiles)
  {
    if profiles != [] {
      assert TextItems(profiles)[1..] == TextItems(profiles[1..]);
      ProfilesWritten(profiles[1..]);
    }
  }

  /** The fields of a version 1 binding, written one behind the other. */
  function BindingContent(enclaveId: bytes, digest: bytes, imageDigest: bytes, profiles: bytes): bytes {
    [0x02, 1, 1] + Element(0x0C, DerLength(|enclaveId|), enclaveId) + Element(0x04, [32], digest)
    + Element(0x0C, DerLength(|imageDigest|), imageDigest) + Element(0x30, DerLength(|profiles|), profiles)
  }

  /** A binding is written as one sequence: the version, the enclave id as text, the digest's 32 bytes, the image digest as
      text, and the sequence of profiles as text; exactly a digest of 64 hexadecimal digits and a version from 0 on has
      such an encoding. */
  lemma BindingIs(b: EnclaveBinding)
    ensures ToDer(b).Success? <==>
            FromHex(b.evidenceDigest).Some? && |FromHex(b.evidenceDigest).value| == 32 && b.version >= 0
    ensures ToDer(b).Success? && b.version == 1 ==>
              var content := BindingContent(
                               b.enclaveId, FromHex(b.evidenceDigest).value, b.imageDigest, ProfileElements(b.profiles));
              ToDer(b) == Success(Element(0x30, DerLength(|content|), content))
  {
    if ToDer(b).Success? && b.version == 1 {
      BindingWritten(b);
    }
  }

  lemma BindingWritten(b: EnclaveBinding)
    requires b.version == 1 && |DigestOf(b)| == 32
    ensures WriteAll(BindingItems(b))
            == BindingContent(b.enclaveId, DigestOf(b), b.imageDigest, ProfileElements(b.profiles))
  {
    var (digest, profiles) := (DigestOf(b), ProfileElements(b.profiles));
    assert Tlv(0x02, IntegerBytes(1)) == [0x02, 1, 1] by {
      IntegerOne();
      assert DerLength(1) == [1];
    }
    assert Tlv(0x04, digest) == Element(0x04, [32], digest);
    assert WriteAll(TextItems(b.profiles)) == profiles by { ProfilesWritten(b.profiles); }
    FiveWritten(BindingItems(b));
  }

  lemma FiveWritten(items: seq<Item>)
    requires |items| == 5
    ensures WriteAll(items) == Tlv(items[0].0, items[0].1) + Tlv(items[1].0, items[1].1) + Tlv(items[2].0, items[2].1)
                               + Tlv(items[3].0, items[3].1) + Tlv(items[4].0, items[4].1)
  {
    WrittenFrom(items, 0);
    WrittenFrom(items, 1);
    WrittenFrom(items, 2);
    WrittenFrom(items, 3);
    WrittenFrom(items, 4);
    assert items[0..] == items && items[5..] == [];
    RightToLeft(Tlv(items[0].0, items[0].1), Tlv(items[1].0, items[1].1), Tlv(items[2].0, items[2].1),
                Tlv(items[3].0, items[3].1), Tlv(items[4].0, items[4].1));
  }

  lemma RightToLeft(a: bytes, b: bytes, c: bytes, d: bytes, e: bytes)
    ensures a + (b + (c + (d + (e + [])))) == a + b + c + d + e
  {
    assert e + [] == e;
  }

  lemma WrittenFrom(items: seq<Item>, i: nat)
    requires i < |items|
    ensures WriteAll(items[i..]) == Tlv(items[i].0, items[i].1) + WriteAll(items[i + 1..])
  {
    assert items[i..][1..] == items[i + 1..];
  }

  /** Reading back what was written gives the same binding exactly when its version is 1 and its digest is lowercase, for
      bindings of valid text whose encoding stays under 2^32 bytes. */
  lemma FromDerOfToDer(b: EnclaveBinding, utf8: bytes -> bool)
    requires ToDer(b).Success? && |WriteAll(BindingItems(b))| < MAX_LENGTH
    requires utf8(b.enclaveId) && utf8(b.imageDigest) && AllText(b.profiles, utf8)
    ensures FromDer(ToDer(b).value, utf8) == Success(b) <==> b.version == 1 && AllLower(b.evidenceDigest)
  {
    assert ItemsWith(IntegerBytes(b.version), b) == BindingItems(b);
    ReadBackBinding(b, IntegerBytes(b.version), utf8);
    IntegerReadBack(b.version);
    ToHexOfFromHex(b.evidenceDigest);
  }

  /** The digest of an accepted extension is always given in lowercase. */
  lemma AcceptedDigest(data: bytes, utf8: bytes -> bool, b: EnclaveBinding)
    requires FromDer(data, utf8) == Success(b)
    ensures AllLower(b.evidenceDigest)
  {
    FromHexOfToHex(Items(ReadElement(data).value.1).value[2].1);
  }

  /** So a version 1 binding with an uppercase digest is written, and does not read back as itself. */
  lemma UppercaseDigestChanges(utf8: bytes -> bool)
    ensures exists b :: ToDer(b).Success? && b.version == 1 && FromDer(ToDer(b).value, utf8) != Success(b)
  {
    var b := EnclaveBinding([], Uppercase(32), [], [], 1);
    UppercaseReads(32);
    assert ToDer(b).Success?;
    OtherDigest(ToDer(b).value, utf8, b);
  }

  lemma OtherDigest(data: bytes, utf8: bytes -> bool, b: EnclaveBinding)
    requires !AllLower(b.evidenceDigest)
    ensures FromDer(data, utf8) != Success(b)
  {
    if FromDer(data, utf8) == Success(b) { AcceptedDigest(data, utf8, b); }
  }

  /** The parts of an accepted extension. */
  lemma AcceptedParts(data: bytes, utf8: bytes -> bool, b: EnclaveBinding) returns (content: bytes, fields: seq<Item>)
    requires FromDer(data, utf8) == Success(b)
    ensures data == Tlv(SEQUENCE, content) && |content| < MAX_LENGTH && content == WriteAll(fields) && Short(fields)
    ensures ReadElement(data).Success? && ReadElement(data).value.1 == content && Items(content) == Success(fields)
    ensures FromFields(fields, utf8) == Success(b)
  {
    var (tag, inner, size) := ReadElement(data).value;
    content := inner;
    fields := Items(content).value;
    WriteOfRead(data, tag, content, size);
    assert data[..size] == data;
    ItemsAreExact(content, fields);
  }

  /** An encoding determines its content. */
  lemma TlvContent(tag: byte, a: bytes, b: bytes)
    requires Tlv(tag, a) == Tlv(tag, b) && |b| < MAX_LENGTH
    ensures a == b
  {
    if |a| >= MAX_LENGTH {
      LengthOctets(|a|);
      if |b| >= 0x80 { LengthOctets(|b|); }
    } else {
      SameElement(tag, a, b);
    }
  }

  lemma SameElement(tag: byte, a: bytes, b: bytes)
    requires Tlv(tag, a) == Tlv(tag, b) && |a| < MAX_LENGTH && |b| < MAX_LENGTH
    ensures a == b
  {
    var d := Tlv(tag, a);
    assert d + [] == d;
    assert ReadElement(d + []) == Success((tag, a, |d|)) by { ReadOfWrite(tag, a, []); }
    assert ReadElement(d + []) == Success((tag, b, |d|)) by { ReadOfWrite(tag, b, []); }
  }

  /** An accepted extension is byte for byte the encoder's output for the binding it holds exactly when its version is the
      one-byte INTEGER 1: leading zeros in the version are the only slack the reader leaves. */
  lemma ToDerOfFromDer(data: bytes, utf8: bytes -> bool, b: EnclaveBinding)
    requires FromDer(data, utf8) == Success(b)
    ensures ToDer(b) == Success(data) <==> Items(ReadElement(data).value.1).value[0].1 == [1]
  {
    var content, fields := AcceptedParts(data, utf8, b);
    FieldsAreExact(fields, utf8, b);
    var items := BindingItems(b);
    assert items[0] == (INTEGER, [1]) by { IntegerOne(); }
    if fields[0].1 == [1] {
      assert fields == items;
    }
    if ToDer(b) == Success(data) {
      assert WriteAll(items) == content by { TlvContent(SEQUENCE, WriteAll(items), content); }
      assert items == fields by {
        ShortFromTotal(items, MAX_LENGTH);
        ItemsOfWriteAll(items);
      }
    }
  }

  lemma LongOne()
    ensures FromBytes([0, 1]) == 1
  {
    assert [0, 1][..1] == [0] && [0][..0] == [];
    assert FromBytes([0]) == 0;
  }

  lemma LongVersionLength(b: EnclaveBinding)
    requires b.version == 1
    ensures |WriteAll(ItemsWith([0, 1], b))| == |WriteAll(BindingItems(b))| + 1
  {
    IntegerOne();
    assert ItemsWith([0, 1], b)[1..] == BindingItems(b)[1..];
  }

  /** Every version 1 binding with a lowercase digest has such another encoding: the version as the two octets 0 and 1. */
  lemma LongVersionAccepted(b: EnclaveBinding, utf8: bytes -> bool)
    requires ToDer(b).Success? && b.version == 1 && AllLower(b.evidenceDigest) && |WriteAll(BindingItems(b))| < MAX_LENGTH - 1
    requires utf8(b.enclaveId) && utf8(b.imageDigest) && AllText(b.profiles, utf8)
    ensures exists data :: FromDer(data, utf8) == Success(b) && ToDer(b) != Success(data)
  {
    var other := ItemsWith([0, 1], b);
    var data := Tlv(SEQUENCE, WriteAll(other));
    LongVersionLength(b);
    assert FromDer(data, utf8) == Success(b) by {
      LongOne();
      ReadBackBinding(b, [0, 1], utf8);
      ToHexOfFromHex(b.evidenceDigest);
    }
    assert ReadElement(data).value.1 == WriteAll(other) by {
      assert data + [] == data;
      ReadOfWrite(SEQUENCE, WriteAll(other), []);
    }
    assert Items(WriteAll(other)) == Success(other) by {
      ShortFromTotal(other, MAX_LENGTH);
      ItemsOfWriteAll(other);
    }
    assert other[0].1 == [0, 1];
    ToDerOfFromDer(data, utf8, b);
  }
}
