/**
  The Linux setup header: what a loader that does not normalize it writes for a kernel, initrd and memory size, and the
  normalization that takes those fields out again before the kernel is measured.
 */
module SetupHeader {
  import opened Digits
  import opened Wrappers

  const ACPI_DATA_SIZE := 0x28000
  const STABLE_MIN_MEMORY := 0xB000_0000

  datatype MeasureError =
    | KernelTooShort | KernelTooOld | AcpiTooLarge | InitrdTooLarge | NotABzImage | ProtocolTooOld

  // ------------------------------------------------------------ fields

  function LittleEndian(n: nat, len: nat): (b: bytes)
    ensures |b| == len
  {
    if len == 0 then [] else [n % 256] + LittleEndian(n / 256, len - 1)
  }

  function FromLittleEndian(b: bytes): nat {
    if b == [] then 0 else b[0] + 256 * FromLittleEndian(b[1..])
  }

  lemma {:induction false} LittleEndianRoundTrip(n: nat, len: nat)
    requires n < Pow(256, len)
    ensures FromLittleEndian(LittleEndian(n, len)) == n
  {
    if len > 0 {
      LittleEndianRoundTrip(n / 256, len - 1);
    }
  }

  /** `pack_into`: the bytes bs written over kd at an offset. */
  function Write(kd: bytes, at: nat, bs: bytes): (r: bytes)
    requires at + |bs| <= |kd|
    ensures |r| == |kd|
    ensures forall i :: 0 <= i < |kd| ==> r[i] == if at <= i < at + |bs| then bs[i - at] else kd[i]
  {
    kd[..at] + bs + kd[at + |bs|..]
  }

  function Protocol(kd: bytes): nat
    requires |kd| >= 0x208
  {
    FromLittleEndian(kd[0x206..0x208])
  }

  function SetBit7(b: byte): byte {
    if b < 0x80 then b + 0x80 else b
  }

  // ------------------------------------------------------------ patching

  /** Where the real-mode code and the command line go. */
  function Placement(kd: bytes): (int, nat)
    requires |kd| >= 0x212
  {
    if Protocol(kd) < 0x200 || kd[0x211] % 2 == 0 then (0x90000, 0x9A000) else (0x10000, 0x20000)
  }

  function AtLeastZero(n: int): nat {
    if n > 0 then n else 0
  }

  /** The loader type, the load flags and the heap end. */
  function PatchFlags(kd: bytes, protocol: nat, heapEnd: nat): (r: bytes)
    requires |kd| >= 0x1000
    ensures |r| == |kd|
  {
    var a := if protocol >= 0x200 then kd[0x210 := 0xB0] else kd;
    if protocol >= 0x201 then Write(a[0x211 := SetBit7(a[0x211])], 0x224, LittleEndian(heapEnd, 4)) else a
  }

  /** The command line's address, in the field of the kernel's protocol. */
  function PatchCmdline(kd: bytes, protocol: nat, realAddr: int, cmdlineAddr: nat): (r: bytes)
    requires |kd| >= 0x1000
    ensures |r| == |kd|
  {
    if protocol >= 0x202 then Write(kd, 0x228, LittleEndian(cmdlineAddr, 4))
    else Write(Write(kd, 0x20, LittleEndian(0xA33F, 2)), 0x22, LittleEndian((cmdlineAddr - realAddr) % 0x1_0000, 2))
  }

  function PatchLoader(kd: bytes): (r: bytes)
    requires |kd| >= 0x1000
    ensures |r| == |kd|
  {
    var (realAddr, cmdlineAddr) := Placement(kd);
    var flags := PatchFlags(kd, Protocol(kd), AtLeastZero(cmdlineAddr - realAddr - 0x200));
    PatchCmdline(flags, Protocol(kd), realAddr, cmdlineAddr)
  }

  /** The highest address the kernel's header allows the initrd to reach. */
  function InitrdLimit(kd: bytes): nat
    requires |kd| >= 0x1000
  {
    if Protocol(kd) >= 0x20C then (if FromLittleEndian(kd[0x236..0x238]) / 0x40 % 2 == 1 then 0xFFFF_FFFF else 0x37FF_FFFF)
    else if Protocol(kd) >= 0x203 && FromLittleEndian(kd[0x22C..0x230]) != 0 then FromLittleEndian(kd[0x22C..0x230])
    else 0x37FF_FFFF
  }

  function MemoryBelow4G(memSize: int): nat {
    var lowmem := if memSize < STABLE_MIN_MEMORY then STABLE_MIN_MEMORY else 0x8000_0000;
    if memSize >= lowmem then lowmem else memSize % 0x1_0000_0000
  }

  /** The initrd's address and size as they are written. */
  function InitrdField(kd: bytes, initrdSize: int, memSize: int, acpiDataSize: nat): Result<(nat, nat), MeasureError>
    requires |kd| >= 0x1000 && initrdSize > 0
  {
    if Protocol(kd) < 0x200 then Failure(KernelTooOld)
    else if acpiDataSize > MemoryBelow4G(memSize) then Failure(AcpiTooLarge)
    else
      var available := MemoryBelow4G(memSize) - acpiDataSize;
      var limit := if InitrdLimit(kd) >= available then (if available > 0 then available - 1 else 0) else InitrdLimit(kd);
      if initrdSize >= limit then Failure(InitrdTooLarge) else Success(((limit - initrdSize) / 4096 * 4096, initrdSize))
  }

  function Patched(kernel: bytes, initrdSize: int, memSize: int, acpiDataSize: nat): Result<bytes, MeasureError> {
    if |kernel| < 0x1000 then Failure(KernelTooShort)
    else
      var kd := PatchLoader(kernel);
      if initrdSize <= 0 then Success(kd)
      else
        match InitrdField(kd, initrdSize, memSize, acpiDataSize)
        case Failure(e) => Failure(e)
        case Success((address, size)) => Success(Write(kd, 0x218, LittleEndian(address, 4) + LittleEndian(size, 4)))
  }

  method WriteLoaderFields(kernel: bytes) returns (kd: bytes)
    requires |kernel| >= 0x1000
    ensures kd == PatchLoader(kernel)
  {
    kd := kernel;
    var protocol := Protocol(kd);
    var realAddr: int, cmdlineAddr: nat := 0x10000, 0x20000;
    if protocol < 0x200 || kd[0x211] % 2 == 0 {
      realAddr, cmdlineAddr := 0x90000, 0x9A000;
    }
    var heapEnd := AtLeastZero(cmdlineAddr - realAddr - 0x200);
    if protocol >= 0x200 {
      kd := kd[0x210 := 0xB0];
    }
    if protocol >= 0x201 {
      kd := kd[0x211 := SetBit7(kd[0x211])];
      kd := Write(kd, 0x224, LittleEndian(heapEnd, 4));
    }
    assert kd == PatchFlags(kernel, protocol, heapEnd);
    if protocol >= 0x202 {
      kd := Write(kd, 0x228, LittleEndian(cmdlineAddr, 4));
    } else {
      kd := Write(kd, 0x20, LittleEndian(0xA33F, 2));
      kd := Write(kd, 0x22, LittleEndian((cmdlineAddr - realAddr) % 0x1_0000, 2));
    }
  }

  method PatchKernel(kernel: bytes, initrdSize: int, memSize: int, acpiDataSize: nat := ACPI_DATA_SIZE)
    returns (r: Result<bytes, MeasureError>)
    ensures r == Patched(kernel, initrdSize, memSize, acpiDataSize)
  {
    if |kernel| < 0x1000 {
      return Failure(KernelTooShort);
    }
    var kd := WriteLoaderFields(kernel);
    if initrdSize > 0 {
      var field := InitrdField(kd, initrdSize, memSize, acpiDataSize);
      if field.Failure? {
        return Failure(field.error);
      }
      kd := Write(kd, 0x218, LittleEndian(field.value.0, 4) + LittleEndian(field.value.1, 4));
    }
    return Success(kd);
  }

  // ------------------------------------------------------------ normalization

  /** The fields a loader writes. */
  const WRITE_FIELDS: seq<(nat, nat)> :=
    [(0x210, 1), (0x218, 4), (0x21C, 4), (0x224, 2), (0x226, 1), (0x227, 1), (0x228, 4), (0x23C, 4), (0x240, 8), (0x250, 8)]

  function ZeroFields(kd: bytes, fields: seq<(nat, nat)>): (r: bytes)
    requires forall k :: 0 <= k < |fields| ==> fields[k].0 + fields[k].1 <= |kd|
    ensures |r| == |kd|
    ensures forall i :: 0 <= i < |kd| ==> r[i] == if InFields(fields, i) then 0 else kd[i]
  {
    if fields == [] then kd
    else
      var (rest, last) := (fields[..|fields| - 1], fields[|fields| - 1]);
      var r := Write(ZeroFields(kd, rest), last.0, Zeros(last.1));
      InFieldsSnoc(rest, last);
      assert fields == rest + [last];
      r
  }

  predicate InFields(fields: seq<(nat, nat)>, i: int) {
    exists k :: 0 <= k < |fields| && fields[k].0 <= i < fields[k].0 + fields[k].1
  }

  lemma InFieldsSnoc(fields: seq<(nat, nat)>, last: (nat, nat))
    ensures forall i :: InFields(fields + [last], i) <==> InFields(fields, i) || last.0 <= i < last.0 + last.1
  {
    forall i ensures InFields(fields + [last], i) <==> InFields(fields, i) || last.0 <= i < last.0 + last.1 {
      var all := fields + [last];
      if InFields(fields, i) {
        var k :| 0 <= k < |fields| && fields[k].0 <= i < fields[k].0 + fields[k].1;
        assert all[k] == fields[k];
      }
      assert all[|fields|] == last;
    }
  }

  const HDRS: bytes := [0x48, 0x64, 0x72, 0x53]

  function Normalized(image: bytes): Result<bytes, MeasureError> {
    if |image| < 0x258 || image[0x202..0x206] != HDRS then Failure(NotABzImage)
    else if Protocol(image) < 0x0209 then Failure(ProtocolTooOld)
    else
      var kd := ZeroFields(image, WRITE_FIELDS);
      Success(kd[0x211 := kd[0x211] % 0x80])
  }

  method NormalizeSetupHeader(image: bytes) returns (r: Result<bytes, MeasureError>)
    ensures r == Normalized(image)
  {
    if |image| < 0x258 || image[0x202..0x206] != HDRS {
      return Failure(NotABzImage);
    }
    if Protocol(image) < 0x0209 {
      return Failure(ProtocolTooOld);
    }
    var kd := image;
    for k := 0 to |WRITE_FIELDS|
      invariant kd == ZeroFields(image, WRITE_FIELDS[..k])
    {
      assert WRITE_FIELDS[..k + 1][..k] == WRITE_FIELDS[..k];
      var (offset, size) := WRITE_FIELDS[k];
      kd := Write(kd, offset, Zeros(size));
    }
    assert WRITE_FIELDS[..|WRITE_FIELDS|] == WRITE_FIELDS;
    return Success(kd[0x211 := kd[0x211] % 0x80]);
  }

  /** Where a normalized image shows anything of the original. */
  predicate LoaderField(i: int) {
    i == 0x210 || 0x218 <= i < 0x220 || 0x224 <= i < 0x22C || 0x23C <= i < 0x248 || 0x250 <= i < 0x258
  }

  lemma FieldsAreLoaderFields(i: int)
    ensures InFields(WRITE_FIELDS, i) <==> LoaderField(i)
  {
    if i == 0x210 { assert WRITE_FIELDS[0] == (0x210, 1); }
    if 0x218 <= i < 0x21C { assert WRITE_FIELDS[1] == (0x218, 4); }
    if 0x21C <= i < 0x220 { assert WRITE_FIELDS[2] == (0x21C, 4); }
    if 0x224 <= i < 0x226 { assert WRITE_FIELDS[3] == (0x224, 2); }
    if i == 0x226 { assert WRITE_FIELDS[4] == (0x226, 1); }
    if i == 0x227 { assert WRITE_FIELDS[5] == (0x227, 1); }
    if 0x228 <= i < 0x22C { assert WRITE_FIELDS[6] == (0x228, 4); }
    if 0x23C <= i < 0x240 { assert WRITE_FIELDS[7] == (0x23C, 4); }
    if 0x240 <= i < 0x248 { assert WRITE_FIELDS[8] == (0x240, 8); }
    if 0x250 <= i < 0x258 { assert WRITE_FIELDS[9] == (0x250, 8); }
  }

  /** Two images that agree but for what loaders write: the fields, and the top bit of the load flags. */
  predicate SameButLoader(a: bytes, b: bytes) {
    |a| == |b| && forall i :: 0 <= i < |a| && !LoaderField(i) ==> if i == 0x211 then a[i] % 0x80 == b[i] % 0x80 else a[i] == b[i]
  }

  /** Normalization cannot tell such images apart. */
  lemma NormalizedSame(a: bytes, b: bytes)
    requires SameButLoader(a, b)
    ensures Normalized(a) == Normalized(b)
  {
    if |a| >= 0x258 {
      assert a[0x202..0x206] == b[0x202..0x206];
      assert a[0x206..0x208] == b[0x206..0x208];
      if Normalized(a).Success? {
        var (x, y) := (Normalized(a).value, Normalized(b).value);
        forall i | 0 <= i < |x| ensures x[i] == y[i] {
          FieldsAreLoaderFields(i);
        }
        assert x == y;
      }
    }
  }

  /** From boot protocol 2.02 on, patching writes loader fields only. */
  lemma PatchLoaderSame(kernel: bytes)
    requires |kernel| >= 0x1000 && Protocol(kernel) >= 0x202
    ensures SameButLoader(PatchLoader(kernel), kernel)
  {
  }

  /** The magic and the protocol number of a header. */
  predicate SameMagic(kd: bytes, r: bytes)
    requires |kd| == |r| >= 0x1000
  {
    forall i :: 0x202 <= i < 0x208 ==> r[i] == kd[i]
  }

  lemma FlagsStay(kd: bytes, protocol: nat, heapEnd: nat)
    requires |kd| >= 0x1000
    ensures SameMagic(kd, PatchFlags(kd, protocol, heapEnd))
  {
  }

  lemma CmdlineStays(kd: bytes, protocol: nat, realAddr: int, cmdlineAddr: nat)
    requires |kd| >= 0x1000
    ensures SameMagic(kd, PatchCmdline(kd, protocol, realAddr, cmdlineAddr))
  {
  }

  lemma LoaderStays(kd: bytes)
    requires |kd| >= 0x1000
    ensures SameMagic(kd, PatchLoader(kd))
  {
    var (realAddr, cmdlineAddr) := Placement(kd);
    var heapEnd := AtLeastZero(cmdlineAddr - realAddr - 0x200);
    FlagsStay(kd, Protocol(kd), heapEnd);
    CmdlineStays(PatchFlags(kd, Protocol(kd), heapEnd), Protocol(kd), realAddr, cmdlineAddr);
  }

  lemma SameProtocol(kd: bytes, r: bytes)
    requires |kd| == |r| >= 0x1000 && SameMagic(kd, r)
    ensures r[0x202..0x206] == kd[0x202..0x206] && Protocol(r) == Protocol(kd)
  {
    assert r[0x206..0x208] == kd[0x206..0x208];
  }

  lemma OldProtocolStays(kernel: bytes)
    requires |kernel| >= 0x1000
    ensures PatchLoader(kernel)[0x202..0x206] == kernel[0x202..0x206]
    ensures Protocol(PatchLoader(kernel)) == Protocol(kernel)
  {
    LoaderStays(kernel);
    SameProtocol(kernel, PatchLoader(kernel));
  }

  lemma InitrdWriteSame(kd: bytes, bs: bytes)
    requires |kd| >= 0x1000 && |bs| == 8
    ensures SameButLoader(Write(kd, 0x218, bs), kd)
  {
  }

  /** Normalization cancels patching: whatever initrd and memory size a kernel was patched for, the normalized image is the
      normalized kernel, and an image that cannot be normalized is refused the same way before and after. */
  lemma NormalizeCancelsPatch(kernel: bytes, initrdSize: int, memSize: int, acpiDataSize: nat)
    requires Patched(kernel, initrdSize, memSize, acpiDataSize).Success?
    ensures Normalized(Patched(kernel, initrdSize, memSize, acpiDataSize).value) == Normalized(kernel)
  {
    var kd := PatchLoader(kernel);
    var r := Patched(kernel, initrdSize, memSize, acpiDataSize).value;
    assert Normalized(r) == Normalized(kd) by {
      if initrdSize > 0 {
        var (address, size) := InitrdField(kd, initrdSize, memSize, acpiDataSize).value;
        InitrdWriteSame(kd, LittleEndian(address, 4) + LittleEndian(size, 4));
        NormalizedSame(r, kd);
      }
    }
    if Protocol(kernel) >= 0x202 {
      PatchLoaderSame(kernel);
      NormalizedSame(kd, kernel);
    } else {
      OldProtocolStays(kernel);
    }
  }

  // ------------------------------------------------------------ what is written

  lemma TwoLittleEndian(a: byte, b: byte)
    ensures LittleEndian(a + 256 * b, 2) == [a, b] && FromLittleEndian([a, b]) == a + 256 * b
  {
    assert (a + 256 * b) % 256 == a && (a + 256 * b) / 256 == b;
    assert LittleEndian(b, 1) == [b] && [a] + [b] == [a, b];
    assert [a, b][1..] == [b] && [b][1..] == [] && FromLittleEndian([b]) == b;
  }

  lemma FourLittleEndian(a: byte, b: byte, c: byte, d: byte)
    ensures LittleEndian(a + 256 * (b + 256 * (c + 256 * d)), 4) == [a, b, c, d]
  {
    var n: int := b + 256 * (c + 256 * d);
    assert (a + 256 * n) % 256 == a && (a + 256 * n) / 256 == n;
    var m: int := c + 256 * d;
    assert (b + 256 * m) % 256 == b && (b + 256 * m) / 256 == m;
    TwoLittleEndian(c, d);
    assert [a] + ([b] + [c, d]) == [a, b, c, d];
  }

  /** The boot protocol's version. */
  function Version(kernel: bytes): nat
    requires |kernel| >= 0x208
  {
    var (a: int, b: int) := (kernel[0x206], kernel[0x207]);
    a + 256 * b
  }

  lemma VersionIs(kernel: bytes)
    requires |kernel| >= 0x208
    ensures Protocol(kernel) == Version(kernel)
  {
    assert kernel[0x206..0x208] == [kernel[0x206], kernel[0x207]];
    TwoLittleEndian(kernel[0x206], kernel[0x207]);
  }

  /** The kernel is loaded high. */
  predicate High(kernel: bytes)
    requires |kernel| >= 0x212
  {
    Version(kernel) >= 0x200 && kernel[0x211] % 2 == 1
  }

  lemma PlacedAt(kernel: bytes)
    requires |kernel| >= 0x212
    ensures Placement(kernel) == if High(kernel) then (0x1_0000, 0x2_0000) else (0x9_0000, 0x9_A000)
  {
    VersionIs(kernel);
  }

  /** A loader's identity, the flag that the heap may be used, its end, and where the command line lies, in the fields of the
      kernel's boot protocol. */
  lemma PatchedFields(kernel: bytes)
    requires |kernel| >= 0x1000
    ensures var (r, version, high) := (PatchLoader(kernel), Version(kernel), High(kernel));
            && (version >= 0x200 ==> r[0x210] == 0xB0)
            && (version >= 0x201 ==> r[0x211] == kernel[0x211] % 0x80 + 0x80)
            && (version >= 0x201 ==> r[0x224..0x228] == [0, if high then 0xFE else 0x9E, 0, 0])
            && (version >= 0x202 ==> r[0x228..0x22C] == if high then [0, 0, 2, 0] else [0, 0xA0, 9, 0])
            && (version < 0x202 ==> r[0x20..0x24] == [0x3F, 0xA3, 0, if high then 0 else 0xA0])
  {
    VersionIs(kernel);
    PlacedAt(kernel);
    var (realAddr, cmdlineAddr) := Placement(kernel);
    var heapEnd := AtLeastZero(cmdlineAddr - realAddr - 0x200);
    var flags := PatchFlags(kernel, Protocol(kernel), heapEnd);
    FlagsWritten(kernel, Protocol(kernel), heapEnd, High(kernel));
    CmdlineWritten(flags, Protocol(kernel), realAddr, cmdlineAddr, High(kernel));
  }

  /** Nothing else is changed. */
  lemma PatchedOnly(kernel: bytes, i: nat)
    requires |kernel| >= 0x1000 && i < |kernel| && !Patches(Version(kernel), i)
    ensures PatchLoader(kernel)[i] == kernel[i]
  {
    VersionIs(kernel);
  }

  /** The fields patching writes for a version. */
  predicate Patches(version: nat, i: int) {
    || (version >= 0x200 && i == 0x210)
    || (version >= 0x201 && (i == 0x211 || 0x224 <= i < 0x228))
    || (if version >= 0x202 then 0x228 <= i < 0x22C else 0x20 <= i < 0x24)
  }

  lemma FlagsWritten(kernel: bytes, version: nat, heapEnd: nat, high: bool)
    requires |kernel| >= 0x1000 && heapEnd == if high then 0xFE00 else 0x9E00
    ensures var r := PatchFlags(kernel, version, heapEnd);
            && (version >= 0x200 ==> r[0x210] == 0xB0)
            && (version >= 0x201 ==> r[0x211] == kernel[0x211] % 0x80 + 0x80)
            && (version >= 0x201 ==> r[0x224..0x228] == [0, if high then 0xFE else 0x9E, 0, 0])
  {
    FourLittleEndian(0, if high then 0xFE else 0x9E, 0, 0);
    var r := PatchFlags(kernel, version, heapEnd);
    if version >= 0x201 { assert r[0x224..0x228] == LittleEndian(heapEnd, 4); }
  }

  lemma CmdlineWritten(kd: bytes, version: nat, realAddr: int, cmdlineAddr: nat, high: bool)
    requires |kd| >= 0x1000 && (realAddr, cmdlineAddr) == if high then (0x1_0000, 0x2_0000) else (0x9_0000, 0x9_A000)
    ensures var r := PatchCmdline(kd, version, realAddr, cmdlineAddr);
            && (version >= 0x202 ==> r[0x228..0x22C] == if high then [0, 0, 2, 0] else [0, 0xA0, 9, 0])
            && (version < 0x202 ==> r[0x20..0x24] == [0x3F, 0xA3, 0, if high then 0 else 0xA0])
            && r[0x210] == kd[0x210] && r[0x211] == kd[0x211] && r[0x224..0x228] == kd[0x224..0x228]
  {
    var r := PatchCmdline(kd, version, realAddr, cmdlineAddr);
    if version >= 0x202 {
      if high { FourLittleEndian(0, 0, 2, 0); } else { FourLittleEndian(0, 0xA0, 9, 0); }
      assert r[0x228..0x22C] == LittleEndian(cmdlineAddr, 4);
    } else {
      TwoLittleEndian(0x3F, 0xA3);
      TwoLittleEndian(0, if high then 0 else 0xA0);
      var offset := (cmdlineAddr - realAddr) % 0x1_0000;
      assert r[0x20..0x24] == LittleEndian(0xA33F, 2) + LittleEndian(offset, 2);
    }
  }

  predicate NormalizedFrom(image: bytes, r: bytes) {
    |r| == |image| && forall i :: 0 <= i < |image| ==>
      r[i] == if i == 0x211 then image[i] % 0x80 else if LoaderField(i) then 0 else image[i]
  }

  /** An image is normalized when it is a bzImage of boot protocol 2.09 or later: the loader's fields are zeroed, the flag that
      the heap may be used is cleared, and nothing else changes. */
  lemma NormalizedExactly(image: bytes)
    ensures Normalized(image).Success?
            <==> |image| >= 0x258 && image[0x202..0x206] == [0x48, 0x64, 0x72, 0x53] && Version(image) >= 0x209
    ensures Normalized(image).Success? ==> NormalizedFrom(image, Normalized(image).value)
  {
    if |image| >= 0x258 {
      VersionIs(image);
      forall i | 0 <= i < |image| ensures InFields(WRITE_FIELDS, i) <==> LoaderField(i) { FieldsAreLoaderFields(i); }
    }
  }

  /** The highest address the kernel's header allows the initrd to reach. */
  function HeaderCeiling(kernel: bytes): nat
    requires |kernel| >= 0x1000
  {
    var (a: int, b: int, c: int, d: int) := (kernel[0x22C], kernel[0x22D], kernel[0x22E], kernel[0x22F]);
    var field := a + 256 * (b + 256 * (c + 256 * d));
    if Version(kernel) < 0x203 then 0x37FF_FFFF
    else if Version(kernel) < 0x20C then (if field == 0 then 0x37FF_FFFF else field)
    else if kernel[0x236] % 0x80 < 0x40 then 0x37FF_FFFF
    else 0xFFFF_FFFF
  }

  lemma FieldIs(kernel: bytes)
    requires |kernel| >= 0x1000
    ensures var (a: int, b: int, c: int, d: int) := (kernel[0x22C], kernel[0x22D], kernel[0x22E], kernel[0x22F]);
            FromLittleEndian(kernel[0x22C..0x230]) == a + 256 * (b + 256 * (c + 256 * d))
  {
    var (a, b, c, d) := (kernel[0x22C], kernel[0x22D], kernel[0x22E], kernel[0x22F]);
    assert kernel[0x22C..0x230] == [a, b, c, d] && [a, b, c, d][1..] == [b, c, d] && [b, c, d][1..] == [c, d];
    TwoLittleEndian(c, d);
    assert FromLittleEndian([b, c, d]) == b + 256 * FromLittleEndian([c, d]);
  }

  lemma CeilingIs(kernel: bytes)
    requires |kernel| >= 0x1000
    ensures InitrdLimit(kernel) == HeaderCeiling(kernel)
  {
    VersionIs(kernel);
    FieldIs(kernel);
    assert kernel[0x236..0x238] == [kernel[0x236], kernel[0x237]];
    TwoLittleEndian(kernel[0x236], kernel[0x237]);
    BitSix(kernel[0x236], kernel[0x237]);
  }

  lemma SixtyFourths(q: int, r: int)
    requires 0 <= r < 64
    ensures (q * 64 + r) / 64 == q
  {
  }

  lemma LowBit(q: int, b: int)
    ensures (q + 4 * b) % 2 == q % 2
  {
    assert q + 4 * b == q + 2 * (2 * b);
  }

  lemma BitSixOfByte(a: int)
    requires 0 <= a < 256
    ensures a / 64 % 2 == 1 <==> a % 0x80 >= 0x40
  {
  }

  lemma BitSix(a: int, b: int)
    requires 0 <= a < 256 && 0 <= b
    ensures (a + 256 * b) / 0x40 % 2 == 1 <==> a % 0x80 >= 0x40
  {
    var (q, r) := (a / 64, a % 64);
    assert a + 256 * b == (q + 4 * b) * 64 + r;
    SixtyFourths(q + 4 * b, r);
    LowBit(q, b);
    BitSixOfByte(a);
  }

  lemma CeilingStays(kernel: bytes)
    requires |kernel| >= 0x1000
    ensures HeaderCeiling(PatchLoader(kernel)) == HeaderCeiling(kernel) && Version(PatchLoader(kernel)) == Version(kernel)
  {
    forall i | 0x206 <= i < 0x208 || 0x22C <= i < 0x237 ensures PatchLoader(kernel)[i] == kernel[i] { PatchedOnly(kernel, i); }
    CeilingSame(kernel, PatchLoader(kernel));
  }

  lemma CeilingSame(kernel: bytes, r: bytes)
    requires |r| == |kernel| >= 0x1000
    requires forall i :: 0x206 <= i < 0x208 || 0x22C <= i < 0x237 ==> r[i] == kernel[i]
    ensures HeaderCeiling(r) == HeaderCeiling(kernel) && Version(r) == Version(kernel)
  {
  }

  /** The initrd lies as high as it may, on a page: the next page up it would reach beyond what the header allows, or beyond
      the last byte below the memory the ACPI tables leave. */
  lemma InitrdHighest(kernel: bytes, initrdSize: int, memSize: int, acpiDataSize: nat)
    requires initrdSize > 0 && Patched(kernel, initrdSize, memSize, acpiDataSize).Success?
    ensures var r := Patched(kernel, initrdSize, memSize, acpiDataSize).value;
            |r| == |kernel| >= 0x1000 && Version(kernel) >= 0x200 &&
            var address := FromLittleEndian(r[0x218..0x21C]);
            var last := MemoryBelow4G(memSize) - acpiDataSize - 1;
            var ceiling := if HeaderCeiling(kernel) < last then HeaderCeiling(kernel) else last;
            address + initrdSize <= ceiling < address + initrdSize + 4096
  {
    var kd := PatchLoader(kernel);
    var (address, size) := InitrdField(kd, initrdSize, memSize, acpiDataSize).value;
    FieldBounds(kd, initrdSize, memSize, acpiDataSize, address, size);
    ReadBackField(kd, address, size);
    CeilingIs(kd);
    CeilingStays(kernel);
    VersionIs(kd);
    FieldHighest(kd, initrdSize, memSize, acpiDataSize, address);
  }

  lemma FieldHighest(kd: bytes, initrdSize: int, memSize: int, acpiDataSize: nat, address: nat)
    requires |kd| >= 0x1000 && initrdSize > 0
    requires InitrdField(kd, initrdSize, memSize, acpiDataSize) == Success((address, initrdSize))
    ensures var last := MemoryBelow4G(memSize) - acpiDataSize - 1;
            var ceiling := if InitrdLimit(kd) < last then InitrdLimit(kd) else last;
            address + initrdSize <= ceiling < address + initrdSize + 4096
  {
  }

  /** A kernel of a page or more is patched unless there is an initrd and the boot protocol is too old for one, or it does not
      end below what the header allows and below the last byte of the memory the ACPI tables leave. */
  lemma PatchesExactly(kernel: bytes, initrdSize: int, memSize: int, acpiDataSize: nat)
    ensures Patched(kernel, initrdSize, memSize, acpiDataSize).Success? <==>
            && |kernel| >= 0x1000
            && (initrdSize > 0 ==>
                  && Version(kernel) >= 0x200 && initrdSize < HeaderCeiling(kernel)
                  && initrdSize < MemoryBelow4G(memSize) - acpiDataSize - 1)
  {
    if |kernel| >= 0x1000 && initrdSize > 0 {
      var kd := PatchLoader(kernel);
      CeilingIs(kd);
      CeilingStays(kernel);
      VersionIs(kd);
      FieldExists(kd, initrdSize, memSize, acpiDataSize);
    }
  }

  lemma FieldExists(kd: bytes, initrdSize: int, memSize: int, acpiDataSize: nat)
    requires |kd| >= 0x1000 && initrdSize > 0
    ensures InitrdField(kd, initrdSize, memSize, acpiDataSize).Success? <==>
            Protocol(kd) >= 0x200 && initrdSize < InitrdLimit(kd) && initrdSize < MemoryBelow4G(memSize) - acpiDataSize - 1
  {
  }

  /** Memory below 4 GiB: up to 2.75 GiB for a smaller machine and 2 GiB for a larger one, as far as there is that much. */
  lemma MemoryBelow(memSize: int)
    ensures 0 <= memSize < 0xB000_0000 ==> MemoryBelow4G(memSize) == memSize
    ensures memSize >= 0xB000_0000 ==> MemoryBelow4G(memSize) == 0x8000_0000
  {
  }

  /** The initrd's written address is page aligned, and the initrd ends below the memory the ACPI tables leave. */
  lemma InitrdPlacement(kernel: bytes, initrdSize: int, memSize: int, acpiDataSize: nat)
    requires initrdSize > 0 && Patched(kernel, initrdSize, memSize, acpiDataSize).Success?
    ensures var r := Patched(kernel, initrdSize, memSize, acpiDataSize).value;
            |r| == |kernel| >= 0x1000 &&
            var (address, size) := (FromLittleEndian(r[0x218..0x21C]), FromLittleEndian(r[0x21C..0x220]));
            && size == initrdSize && address % 4096 == 0
            && address + size < MemoryBelow4G(memSize) - acpiDataSize
  {
    var kd := PatchLoader(kernel);
    var (address, size) := InitrdField(kd, initrdSize, memSize, acpiDataSize).value;
    FieldBounds(kd, initrdSize, memSize, acpiDataSize, address, size);
    ReadBackField(kd, address, size);
  }

  lemma FieldBounds(kd: bytes, initrdSize: int, memSize: int, acpiDataSize: nat, address: nat, size: nat)
    requires |kd| >= 0x1000 && initrdSize > 0
    requires InitrdField(kd, initrdSize, memSize, acpiDataSize) == Success((address, size))
    ensures size == initrdSize && address % 4096 == 0
    ensures address + size < MemoryBelow4G(memSize) - acpiDataSize < 0x1_0000_0000
  {
  }

  lemma ReadBackField(kd: bytes, address: nat, size: nat)
    requires |kd| >= 0x1000 && address < 0x1_0000_0000 && size < 0x1_0000_0000
    ensures var r := Write(kd, 0x218, LittleEndian(address, 4) + LittleEndian(size, 4));
            FromLittleEndian(r[0x218..0x21C]) == address && FromLittleEndian(r[0x21C..0x220]) == size
  {
    var r := Write(kd, 0x218, LittleEndian(address, 4) + LittleEndian(size, 4));
    Pow256Eight();
    LittleEndianRoundTrip(address, 4);
    LittleEndianRoundTrip(size, 4);
    assert r[0x218..0x21C] == LittleEndian(address, 4);
    assert r[0x21C..0x220] == LittleEndian(size, 4);
  }
}
