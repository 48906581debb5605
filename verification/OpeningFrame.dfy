/**
  How an opening travels: the header and the latent bytes framed into one plaintext, sealed to the validator's key, and
  taken apart again on the other side.
 */
module OpeningFrame {
  import opened Digits
  import opened Openings
  import opened Sorting
  import opened Wrappers

  /** The JSON header's encoding, as a pair of functions. */
  datatype Codec = Codec(encode: Opening -> bytes, decode: bytes -> Option<Opening>)

  ghost predicate RoundTrips(codec: Codec) {
    forall o :: codec.decode(codec.encode(o)) == Some(o)
  }

  datatype Label = Label(jobId: string, auditId: string, step: int)

  datatype Box = Box(recipient: bytes, context: Label, plaintext: bytes)

  datatype SealedOpening = SealedOpening(auditId: string, jobId: string, enclaveId: string, step: int, box: Box)

  datatype SealError = RecordsDisagree | HeaderTooLong | BadRecord(index: int) | BadState(index: int)

  function RecordIndices(records: seq<LatentRecord>): set<int> {
    if records == [] then {} else RecordIndices(records[..|records| - 1]) + {records[|records| - 1].index}
  }

  function Data(items: seq<Tensor>): bytes {
    if items == [] then [] else Data(items[..|items| - 1]) + items[|items| - 1].data
  }

  /** Every latent in canonical order. */
  function Canonical(latents: map<int, seq<Tensor>>): map<int, seq<Tensor>> {
    map i | i in latents :: Sort(latents[i], ByName)
  }

  function RecordProblem(record: LatentRecord, items: seq<Tensor>): Option<SealError> {
    if !WellFormedState(items) then Some(BadState(record.index))
    else if Specs(items) != record.tensors then Some(BadRecord(record.index))
    else None
  }

  /** The first record that does not describe its latent; `states` are the latents in canonical order. */
  function FirstBadRecord(records: seq<LatentRecord>, states: map<int, seq<Tensor>>): Option<SealError>
    requires RecordIndices(records) <= states.Keys
  {
    if records == [] then None
    else
      match FirstBadRecord(records[..|records| - 1], states)
      case Some(e) => Some(e)
      case None => RecordProblem(records[|records| - 1], states[records[|records| - 1].index])
  }

  /** The latent bytes that follow the header, in record order. */
  function Body(records: seq<LatentRecord>, states: map<int, seq<Tensor>>): bytes
    requires RecordIndices(records) <= states.Keys
  {
    if records == [] then []
    else Body(records[..|records| - 1], states) + Data(states[records[|records| - 1].index])
  }

  function SealOpening(codec: Codec, opening: Opening, latents: map<int, seq<Tensor>>, recipient: bytes): Result<SealedOpening, SealError> {
    if RecordIndices(opening.latents) != latents.Keys then Failure(RecordsDisagree)
    else
      var header := codec.encode(opening);
      if |header| >= 0x1_0000_0000 then Failure(HeaderTooLong)
      else
        match FirstBadRecord(opening.latents, Canonical(latents))
        case Some(e) => Failure(e)
        case None =>
          Success(SealedOpening(opening.auditId, opening.jobId, opening.enclaveId, opening.step,
                                Box(recipient, Label(opening.jobId, opening.auditId, opening.step),
                                    OPENING_MAGIC + U32(|header|) + header + Body(opening.latents, Canonical(latents)))))
  }

  /** Python's slice `s[a:b]`, which stops at the end of s. */
  function Clip<T>(s: seq<T>, a: nat, b: nat): seq<T>
    requires a <= b
  {
    if b <= |s| then s[a..b] else if a <= |s| then s[a..] else []
  }

  function ReadTensors(specs: seq<TensorSpec>, plaintext: bytes, offset: nat): (r: (seq<Tensor>, nat))
    ensures r.1 >= offset
  {
    if specs == [] then ([], offset)
    else
      var last := specs[|specs| - 1];
      var (front, at) := ReadTensors(specs[..|specs| - 1], plaintext, offset);
      (front + [Tensor(last, Clip(plaintext, at, at + last.NBytes()))], at + last.NBytes())
  }

  function ReadRecords(records: seq<LatentRecord>, plaintext: bytes, offset: nat): (r: (map<int, seq<Tensor>>, nat))
    ensures r.1 >= offset
  {
    if records == [] then (map[], offset)
    else
      var last := records[|records| - 1];
      var (front, at) := ReadRecords(records[..|records| - 1], plaintext, offset);
      var (tensors, end) := ReadTensors(last.tensors, plaintext, at);
      (front[last.index := tensors], end)
  }

  datatype OpenError = CannotDecrypt | NotAnOpening | TruncatedFrame | MalformedHeader | WrongLength | WrongEnvelope

  /** Decrypts and takes apart an opening. A box opens only with its recipient's key and under the envelope's own label. */
  method OpenSealedOpening(codec: Codec, privateKeyOf: bytes, sealed: SealedOpening)
    returns (r: Result<(Opening, map<int, seq<Tensor>>), OpenError>)
    ensures r == Opened(codec, privateKeyOf, sealed)
  {
    if sealed.box.recipient != privateKeyOf || sealed.box.context != Label(sealed.jobId, sealed.auditId, sealed.step) {
      return Failure(CannotDecrypt);
    }
    var plaintext := sealed.box.plaintext;
    if !(OPENING_MAGIC <= plaintext) {
      return Failure(NotAnOpening);
    }
    var offset: nat := |OPENING_MAGIC|;
    if |plaintext| < offset + 4 {
      return Failure(TruncatedFrame);
    }
    var length := FromBytes(plaintext[offset..offset + 4]);
    offset := offset + 4;
    var header := codec.decode(Clip(plaintext, offset, offset + length));
    if header.None? {
      return Failure(MalformedHeader);
    }
    var opening := header.value;
    offset := offset + length;
    ghost var start := offset;
    var latents: map<int, seq<Tensor>> := map[];
    for i := 0 to |opening.latents|
      invariant (latents, offset) == ReadRecords(opening.latents[..i], plaintext, start)
    {
      var record := opening.latents[i];
      var tensors: seq<Tensor> := [];
      ghost var at := offset;
      for j := 0 to |record.tensors|
        invariant (tensors, offset) == ReadTensors(record.tensors[..j], plaintext, at)
      {
        var spec := record.tensors[j];
        tensors := tensors + [Tensor(spec, Clip(plaintext, offset, offset + spec.NBytes()))];
        offset := offset + spec.NBytes();
        assert record.tensors[..j + 1][..j] == record.tensors[..j];
      }
      latents := latents[record.index := tensors];
      assert record.tensors[..|record.tensors|] == record.tensors;
      assert opening.latents[..i + 1][..i] == opening.latents[..i];
    }
    assert opening.latents[..|opening.latents|] == opening.latents;
    if offset != |plaintext| {
      return Failure(WrongLength);
    }
    if opening.auditId != sealed.auditId || opening.jobId != sealed.jobId || opening.enclaveId != sealed.enclaveId
       || opening.step != sealed.step {
      return Failure(WrongEnvelope);
    }
    return Success((opening, latents));
  }

  function Opened(codec: Codec, privateKeyOf: bytes, sealed: SealedOpening): Result<(Opening, map<int, seq<Tensor>>), OpenError> {
    var plaintext := sealed.box.plaintext;
    if sealed.box.recipient != privateKeyOf || sealed.box.context != Label(sealed.jobId, sealed.auditId, sealed.step) then
      Failure(CannotDecrypt)
    else if !(OPENING_MAGIC <= plaintext) then Failure(NotAnOpening)
    else if |plaintext| < 14 then Failure(TruncatedFrame)
    else
      var length := FromBytes(plaintext[10..14]);
      match codec.decode(Clip(plaintext, 14, 14 + length))
      case None => Failure(MalformedHeader)
      case Some(opening) =>
        var (latents, end) := ReadRecords(opening.latents, plaintext, 14 + length);
        if end != |plaintext| then Failure(WrongLength)
        else if opening.auditId != sealed.auditId || opening.jobId != sealed.jobId || opening.enclaveId != sealed.enclaveId
                || opening.step != sealed.step then Failure(WrongEnvelope)
        else Success((opening, latents))
  }

  /** `part` lies in `whole` at `offset`. */
  predicate Holds(whole: bytes, offset: nat, part: bytes) {
    offset + |part| <= |whole| && whole[offset..offset + |part|] == part
  }

  lemma HoldsParts(whole: bytes, offset: nat, a: bytes, b: bytes)
    requires Holds(whole, offset, a + b)
    ensures Holds(whole, offset, a) && Holds(whole, offset + |a|, b)
  {
    var both := whole[offset..offset + |a + b|];
    assert a == both[..|a|] && b == both[|a|..];
  }

  lemma ReadTensorsSnoc(specs: seq<TensorSpec>, last: Tensor, plaintext: bytes, offset: nat, items: seq<Tensor>, at: nat)
    requires ReadTensors(specs, plaintext, offset) == (items, at)
    requires |last.data| == last.spec.NBytes() && Holds(plaintext, at, last.data)
    ensures ReadTensors(specs + [last.spec], plaintext, offset) == (items + [last], at + |last.data|)
  {
    assert (specs + [last.spec])[..|specs|] == specs;
  }

  lemma LastTensor(items: seq<Tensor>)
    requires items != []
    ensures var (front, last) := (items[..|items| - 1], items[|items| - 1]);
            items == front + [last] && Specs(items) == Specs(front) + [last.spec]
  {
  }

  lemma ReadBackLast(items: seq<Tensor>, plaintext: bytes, offset: nat, at: nat)
    requires items != [] && ReadTensors(Specs(items[..|items| - 1]), plaintext, offset) == (items[..|items| - 1], at)
    requires var last := items[|items| - 1]; |last.data| == last.spec.NBytes() && Holds(plaintext, at, last.data)
    ensures ReadTensors(Specs(items), plaintext, offset) == (items, at + |items[|items| - 1].data|)
  {
    LastTensor(items);
    ReadTensorsSnoc(Specs(items[..|items| - 1]), items[|items| - 1], plaintext, offset, items[..|items| - 1], at);
  }

  lemma {:induction false} ReadBackTensors(items: seq<Tensor>, plaintext: bytes, offset: nat)
    requires forall i :: 0 <= i < |items| ==> |items[i].data| == items[i].spec.NBytes()
    requires Holds(plaintext, offset, Data(items))
    ensures ReadTensors(Specs(items), plaintext, offset) == (items, offset + |Data(items)|)
  {
    if items != [] {
      var (front, last) := (items[..|items| - 1], items[|items| - 1]);
      HoldsParts(plaintext, offset, Data(front), last.data);
      ReadBackTensors(front, plaintext, offset);
      ReadBackLast(items, plaintext, offset, offset + |Data(front)|);
    }
  }

  lemma ReadBackRecord(record: LatentRecord, items: seq<Tensor>, plaintext: bytes, offset: nat)
    requires RecordProblem(record, items) == None
    requires Holds(plaintext, offset, Data(items))
    ensures ReadTensors(record.tensors, plaintext, offset) == (items, offset + |Data(items)|)
  {
    ReadBackTensors(items, plaintext, offset);
  }

  function Restrict(states: map<int, seq<Tensor>>, keys: set<int>): map<int, seq<Tensor>>
    requires keys <= states.Keys
  {
    map i | i in keys :: states[i]
  }

  lemma ReadBackSnoc(
    records: seq<LatentRecord>, states: map<int, seq<Tensor>>, keys: set<int>, items: seq<Tensor>, plaintext: bytes,
    offset: nat, at: nat, end: nat
  )
    requires records != [] && keys <= states.Keys
    requires var last := records[|records| - 1];
             last.index in states && states[last.index] == items && ReadTensors(last.tensors, plaintext, at) == (items, end)
    requires ReadRecords(records[..|records| - 1], plaintext, offset) == (Restrict(states, keys), at)
    ensures ReadRecords(records, plaintext, offset) == (Restrict(states, keys + {records[|records| - 1].index}), end)
  {
    var last := records[|records| - 1];
    assert Restrict(states, keys + {last.index}) == Restrict(states, keys)[last.index := items];
  }

  /** Each record's latent is read back between two of the offsets. */
  predicate ReadsBack(records: seq<LatentRecord>, states: map<int, seq<Tensor>>, plaintext: bytes, offsets: seq<nat>) {
    |offsets| == |records| + 1 &&
    forall i :: 0 <= i < |records| ==>
      && records[i].index in states
      && ReadTensors(records[i].tensors, plaintext, offsets[i]) == (states[records[i].index], offsets[i + 1])
  }

  lemma {:induction false} AllReadBack(
    records: seq<LatentRecord>, states: map<int, seq<Tensor>>, plaintext: bytes, offsets: seq<nat>
  )
    requires RecordIndices(records) <= states.Keys && ReadsBack(records, states, plaintext, offsets)
    ensures ReadRecords(records, plaintext, offsets[0]) == (Restrict(states, RecordIndices(records)), offsets[|records|])
  {
    if records != [] {
      var n := |records| - 1;
      AllReadBack(records[..n], states, plaintext, offsets[..n + 1]);
      var items := states[records[n].index];
      ReadBackSnoc(records, states, RecordIndices(records[..n]), items, plaintext, offsets[0], offsets[n], offsets[n + 1]);
    }
  }

  lemma {:induction false} RecordReadsBack(
    records: seq<LatentRecord>, states: map<int, seq<Tensor>>, plaintext: bytes, i: nat, items: seq<Tensor>, at: nat, end: nat
  )
    requires RecordIndices(records) <= states.Keys && FirstBadRecord(records, states) == None && i < |records|
    requires records[i].index in states && items == states[records[i].index]
    requires Holds(plaintext, at, Data(items)) && end == at + |Data(items)|
    ensures ReadTensors(records[i].tensors, plaintext, at) == (items, end)
  {
    if i < |records| - 1 {
      RecordReadsBack(records[..|records| - 1], states, plaintext, i, items, at, end);
    } else {
      ReadBackRecord(records[i], items, plaintext, at);
    }
  }

  lemma FrontHeld(records: seq<LatentRecord>, states: map<int, seq<Tensor>>, plaintext: bytes, offset: nat)
    requires records != [] && RecordIndices(records) <= states.Keys && Holds(plaintext, offset, Body(records, states))
    ensures RecordIndices(records[..|records| - 1]) <= states.Keys
    ensures Holds(plaintext, offset, Body(records[..|records| - 1], states))
  {
    HoldsParts(plaintext, offset, Body(records[..|records| - 1], states), Data(states[records[|records| - 1].index]));
  }

  lemma {:induction false} HeldUpTo(
    records: seq<LatentRecord>, states: map<int, seq<Tensor>>, plaintext: bytes, offset: nat, i: nat
  )
    requires RecordIndices(records) <= states.Keys && Holds(plaintext, offset, Body(records, states)) && i <= |records|
    ensures RecordIndices(records[..i]) <= states.Keys && Holds(plaintext, offset, Body(records[..i], states))
  {
    if i == |records| {
      assert records[..i] == records;
    } else {
      var front := records[..|records| - 1];
      FrontHeld(records, states, plaintext, offset);
      HeldUpTo(front, states, plaintext, offset, i);
      assert front[..i] == records[..i];
    }
  }

  lemma BodyNext(records: seq<LatentRecord>, states: map<int, seq<Tensor>>, i: nat)
    requires i < |records| && RecordIndices(records[..i + 1]) <= states.Keys
    ensures RecordIndices(records[..i]) <= states.Keys && records[i].index in states
    ensures Body(records[..i + 1], states) == Body(records[..i], states) + Data(states[records[i].index])
  {
    assert records[..i + 1][..i] == records[..i];
  }

  /** A record's latent lies behind the latents of the records before it. */
  lemma NextHeld(records: seq<LatentRecord>, states: map<int, seq<Tensor>>, plaintext: bytes, offset: nat, i: nat)
    requires RecordIndices(records) <= states.Keys && i < |records| && Holds(plaintext, offset, Body(records, states))
    ensures RecordIndices(records[..i]) <= states.Keys && records[i].index in states
    ensures Holds(plaintext, offset + |Body(records[..i], states)|, Data(states[records[i].index]))
    ensures RecordIndices(records[..i + 1]) <= states.Keys
    ensures |Body(records[..i + 1], states)| == |Body(records[..i], states)| + |Data(states[records[i].index])|
  {
    HeldUpTo(records, states, plaintext, offset, i + 1);
    BodyNext(records, states, i);
    HoldsParts(plaintext, offset, Body(records[..i], states), Data(states[records[i].index]));
  }

  /** Each record's latent lies between two of the offsets. */
  predicate LaidOut(records: seq<LatentRecord>, states: map<int, seq<Tensor>>, plaintext: bytes, offsets: seq<nat>) {
    |offsets| == |records| + 1 &&
    forall i :: 0 <= i < |records| ==>
      && records[i].index in states && Holds(plaintext, offsets[i], Data(states[records[i].index]))
      && offsets[i + 1] == offsets[i] + |Data(states[records[i].index])|
  }

  lemma LaidOutSnoc(
    records: seq<LatentRecord>, states: map<int, seq<Tensor>>, plaintext: bytes, offsets: seq<nat>, n: nat, end: nat
  )
    requires n < |records| && LaidOut(records[..n], states, plaintext, offsets)
    requires records[n].index in states && Holds(plaintext, offsets[n], Data(states[records[n].index]))
    requires end == offsets[n] + |Data(states[records[n].index])|
    ensures LaidOut(records[..n + 1], states, plaintext, offsets + [end])
  {
    assert forall i :: 0 <= i < n ==> records[..n + 1][i] == records[..n][i];
  }

  lemma {:induction false} BodyLaidOut(
    records: seq<LatentRecord>, states: map<int, seq<Tensor>>, plaintext: bytes, offset: nat, n: nat
  ) returns (offsets: seq<nat>)
    requires RecordIndices(records) <= states.Keys && Holds(plaintext, offset, Body(records, states)) && n <= |records|
    ensures RecordIndices(records[..n]) <= states.Keys && LaidOut(records[..n], states, plaintext, offsets)
    ensures offsets[0] == offset && offsets[n] == offset + |Body(records[..n], states)|
  {
    HeldUpTo(records, states, plaintext, offset, n);
    offsets := [offset];
    if n > 0 {
      var end := offset + |Body(records[..n], states)|;
      offsets := BodyLaidOut(records, states, plaintext, offset, n - 1);
      NextHeld(records, states, plaintext, offset, n - 1);
      LaidOutSnoc(records, states, plaintext, offsets, n - 1, end);
      offsets := offsets + [end];
    }
  }

  lemma LaidOutReadsBack(records: seq<LatentRecord>, states: map<int, seq<Tensor>>, plaintext: bytes, offsets: seq<nat>)
    requires RecordIndices(records) <= states.Keys && FirstBadRecord(records, states) == None
    requires LaidOut(records, states, plaintext, offsets)
    ensures ReadRecords(records, plaintext, offsets[0]) == (Restrict(states, RecordIndices(records)), offsets[|records|])
  {
    forall i | 0 <= i < |records|
      ensures ReadTensors(records[i].tensors, plaintext, offsets[i]) == (states[records[i].index], offsets[i + 1])
    {
      RecordReadsBack(records, states, plaintext, i, states[records[i].index], offsets[i], offsets[i + 1]);
    }
    AllReadBack(records, states, plaintext, offsets);
  }

  lemma ReadBackRecords(records: seq<LatentRecord>, states: map<int, seq<Tensor>>, plaintext: bytes, offset: nat)
    requires RecordIndices(records) <= states.Keys && FirstBadRecord(records, states) == None
    requires Holds(plaintext, offset, Body(records, states))
    ensures ReadRecords(records, plaintext, offset)
            == (Restrict(states, RecordIndices(records)), offset + |Body(records, states)|)
  {
    var offsets := BodyLaidOut(records, states, plaintext, offset, |records|);
    assert records[..|records|] == records;
    LaidOutReadsBack(records, states, plaintext, offsets);
  }

  lemma FrameParts(header: bytes, body: bytes)
    requires |header| < 0x1_0000_0000
    ensures var plaintext := OPENING_MAGIC + U32(|header|) + header + body;
            && OPENING_MAGIC <= plaintext && |plaintext| == 14 + |header| + |body|
            && FromBytes(plaintext[10..14]) == |header|
            && Clip(plaintext, 14, 14 + |header|) == header
            && Holds(plaintext, 14 + |header|, body)
  {
    var plaintext := OPENING_MAGIC + U32(|header|) + header + body;
    U32RoundTrip(|header|);
    assert plaintext[10..14] == U32(|header|);
  }

  /** Whatever is sealed opens, with the recipient's key, to the same header and the same latents in canonical order. */
  lemma SealedOpens(codec: Codec, opening: Opening, latents: map<int, seq<Tensor>>, recipient: bytes)
    requires RoundTrips(codec)
    requires SealOpening(codec, opening, latents, recipient).Success?
    ensures Opened(codec, recipient, SealOpening(codec, opening, latents, recipient).value)
            == Success((opening, Canonical(latents)))
  {
    var header := codec.encode(opening);
    var states := Canonical(latents);
    FrameParts(header, Body(opening.latents, states));
    ReadBackRecords(opening.latents, states, OPENING_MAGIC + U32(|header|) + header + Body(opening.latents, states), 14 + |header|);
    assert Restrict(states, states.Keys) == states;
  }

  // ------------------------------------------------------------ what opens

  lemma HoldsBoth(whole: bytes, offset: nat, a: bytes, b: bytes)
    requires Holds(whole, offset, a) && Holds(whole, offset + |a|, b)
    ensures Holds(whole, offset, a + b)
  {
    assert whole[offset..offset + |a + b|] == whole[offset..offset + |a|] + whole[offset + |a|..offset + |a| + |b|];
  }

  /** Tensors of these specifications, each of its size. */
  predicate Described(items: seq<Tensor>, specs: seq<TensorSpec>) {
    |items| == |specs| && forall i :: 0 <= i < |items| ==> items[i].spec == specs[i] && |items[i].data| == specs[i].NBytes()
  }

  lemma ReadLast(specs: seq<TensorSpec>, plaintext: bytes, offset: nat, front: seq<Tensor>, at: nat)
    requires specs != [] && ReadTensors(specs[..|specs| - 1], plaintext, offset) == (front, at)
    ensures var last := specs[|specs| - 1];
            ReadTensors(specs, plaintext, offset)
            == (front + [Tensor(last, Clip(plaintext, at, at + last.NBytes()))], at + last.NBytes())
  {
  }

  lemma ClipHeld(plaintext: bytes, at: nat, n: nat)
    requires at + n <= |plaintext|
    ensures |Clip(plaintext, at, at + n)| == n && Holds(plaintext, at, Clip(plaintext, at, at + n))
  {
  }

  lemma DescribedSnoc(front: seq<Tensor>, specs: seq<TensorSpec>, last: Tensor)
    requires specs != [] && Described(front, specs[..|specs| - 1]) && last.spec == specs[|specs| - 1]
    requires |last.data| == last.spec.NBytes()
    ensures Described(front + [last], specs)
  {
    assert forall i :: 0 <= i < |front| ==> specs[..|specs| - 1][i] == specs[i];
  }

  lemma DataSnoc(items: seq<Tensor>, front: seq<Tensor>, last: Tensor)
    requires items == front + [last]
    ensures Data(items) == Data(front) + last.data
  {
    assert items[..|items| - 1] == front;
  }

  lemma LastTensorHeld(specs: seq<TensorSpec>, plaintext: bytes, offset: nat, front: seq<Tensor>, at: nat) returns (last: Tensor)
    requires specs != [] && ReadTensors(specs[..|specs| - 1], plaintext, offset) == (front, at)
    requires ReadTensors(specs, plaintext, offset).1 <= |plaintext| && Described(front, specs[..|specs| - 1])
    ensures ReadTensors(specs, plaintext, offset) == (front + [last], at + |last.data|)
    ensures Described(front + [last], specs) && Holds(plaintext, at, last.data)
  {
    var (n, spec) := (specs[|specs| - 1].NBytes(), specs[|specs| - 1]);
    ReadLast(specs, plaintext, offset, front, at);
    ClipHeld(plaintext, at, n);
    last := Tensor(spec, Clip(plaintext, at, at + n));
    DescribedSnoc(front, specs, last);
  }

  /** What is read of a plaintext that is long enough is what lies there. */
  lemma {:induction false} TensorsHeld(specs: seq<TensorSpec>, plaintext: bytes, offset: nat)
    requires ReadTensors(specs, plaintext, offset).1 <= |plaintext|
    ensures var (items, end) := ReadTensors(specs, plaintext, offset);
            Described(items, specs) && Holds(plaintext, offset, Data(items)) && end == offset + |Data(items)|
  {
    if specs != [] {
      var n := |specs| - 1;
      var (front, at) := ReadTensors(specs[..n], plaintext, offset);
      TensorsHeld(specs[..n], plaintext, offset);
      var last := LastTensorHeld(specs, plaintext, offset, front, at);
      DataSnoc(front + [last], front, last);
      HoldsBoth(plaintext, offset, Data(front), last.data);
    }
  }

  /** The latents of all records, one after another. */
  function Joined(parts: seq<seq<Tensor>>): bytes {
    if parts == [] then [] else Joined(parts[..|parts| - 1]) + Data(parts[|parts| - 1])
  }

  /** Each record's latent under its index, the last one where records share an index. */
  function ByIndex(records: seq<LatentRecord>, parts: seq<seq<Tensor>>): map<int, seq<Tensor>>
    requires |records| == |parts|
  {
    if records == [] then map[]
    else ByIndex(records[..|records| - 1], parts[..|parts| - 1])[records[|records| - 1].index := parts[|parts| - 1]]
  }

  predicate AllDescribed(records: seq<LatentRecord>, parts: seq<seq<Tensor>>) {
    |records| == |parts| && forall i :: 0 <= i < |records| ==> Described(parts[i], records[i].tensors)
  }

  lemma PartsSnoc(records: seq<LatentRecord>, front: seq<seq<Tensor>>, last: seq<Tensor>)
    requires records != [] && AllDescribed(records[..|records| - 1], front) && Described(last, records[|records| - 1].tensors)
    ensures AllDescribed(records, front + [last]) && Joined(front + [last]) == Joined(front) + Data(last)
    ensures ByIndex(records, front + [last]) == ByIndex(records[..|records| - 1], front)[records[|records| - 1].index := last]
  {
    assert (front + [last])[..|front|] == front;
    assert forall i :: 0 <= i < |front| ==> records[..|records| - 1][i] == records[i];
  }

  lemma ReadRecordsLast(records: seq<LatentRecord>, plaintext: bytes, offset: nat, found: map<int, seq<Tensor>>, at: nat)
    requires records != [] && ReadRecords(records[..|records| - 1], plaintext, offset) == (found, at)
    ensures var (last, read) := (records[|records| - 1], ReadTensors(records[|records| - 1].tensors, plaintext, at));
            ReadRecords(records, plaintext, offset) == (found[last.index := read.0], read.1)
  {
  }

  lemma {:induction false} RecordsHeld(records: seq<LatentRecord>, plaintext: bytes, offset: nat) returns (parts: seq<seq<Tensor>>)
    requires ReadRecords(records, plaintext, offset).1 <= |plaintext|
    ensures AllDescribed(records, parts) && Holds(plaintext, offset, Joined(parts))
    ensures ReadRecords(records, plaintext, offset) == (ByIndex(records, parts), offset + |Joined(parts)|)
  {
    if records == [] {
      parts := [];
    } else {
      var n := |records| - 1;
      var (found, at) := ReadRecords(records[..n], plaintext, offset);
      ReadRecordsLast(records, plaintext, offset, found, at);
      var front := RecordsHeld(records[..n], plaintext, offset);
      var items := LastHeld(records[n].tensors, plaintext, at);
      parts := front + [items];
      PartsSnoc(records, front, items);
      HoldsBoth(plaintext, offset, Joined(front), Data(items));
    }
  }

  lemma LastHeld(specs: seq<TensorSpec>, plaintext: bytes, at: nat) returns (items: seq<Tensor>)
    requires ReadTensors(specs, plaintext, at).1 <= |plaintext|
    ensures ReadTensors(specs, plaintext, at) == (items, at + |Data(items)|)
    ensures Described(items, specs) && Holds(plaintext, at, Data(items))
  {
    TensorsHeld(specs, plaintext, at);
    items := ReadTensors(specs, plaintext, at).0;
  }

  lemma FrameOf(plaintext: bytes, body: bytes)
    requires OPENING_MAGIC <= plaintext && |plaintext| >= 14
    requires var length := FromBytes(plaintext[10..14]);
             14 + length <= |plaintext| && Holds(plaintext, 14 + length, body) && 14 + length + |body| == |plaintext|
    ensures var header := Clip(plaintext, 14, 14 + FromBytes(plaintext[10..14]));
            plaintext == OPENING_MAGIC + U32(|header|) + header + body && |header| < 0x1_0000_0000
  {
    U32OfBytes(plaintext[10..14]);
    var length := FromBytes(plaintext[10..14]);
    assert plaintext == plaintext[..10] + plaintext[10..14] + plaintext[14..14 + length] + plaintext[14 + length..];
  }

  /** Only what is framed so opens: a box for this key, labelled with the envelope's own job, audit and step, whose plaintext
      is "KUNOSTEP1" and a line feed, the header with its length, and the latents its records describe, with nothing missing or
      behind; and the header names the envelope's job, audit, enclave and step. */
  lemma OpenedIsFramed(
    codec: Codec, privateKeyOf: bytes, sealed: SealedOpening, opening: Opening, latents: map<int, seq<Tensor>>
  ) returns (header: bytes, parts: seq<seq<Tensor>>)
    requires Opened(codec, privateKeyOf, sealed) == Success((opening, latents))
    ensures sealed.box.recipient == privateKeyOf && sealed.box.context == Label(sealed.jobId, sealed.auditId, sealed.step)
    ensures opening.jobId == sealed.jobId && opening.auditId == sealed.auditId && opening.enclaveId == sealed.enclaveId
    ensures opening.step == sealed.step
    ensures codec.decode(header) == Some(opening) && |header| < 0x1_0000_0000
    ensures sealed.box.plaintext == [75, 85, 78, 79, 83, 84, 69, 80, 49, 10] + U32(|header|) + header + Joined(parts)
    ensures AllDescribed(opening.latents, parts) && latents == ByIndex(opening.latents, parts)
  {
    var plaintext := sealed.box.plaintext;
    var length := FromBytes(plaintext[10..14]);
    header := Clip(plaintext, 14, 14 + length);
    parts := RecordsHeld(opening.latents, plaintext, 14 + length);
    FrameOf(plaintext, Joined(parts));
  }
}
