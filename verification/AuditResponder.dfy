/**
  The enclave's side of an audit: from a retained trajectory to the sealed opening of one step, and the end-to-end result
  that the validator's check accepts every honest opening.
 */
module AuditResponder {
  import opened Digits
  import opened Merkle
  import opened OpeningFrame
  import opened Openings
  import opened Sorting
  import opened Wrappers

  datatype Binding = KeyHash(key: bytes) | OtherBinding(hex: string)

  datatype RetainedJob = RetainedJob(
    transcript: Transcript, leaves: seq<StepLeaf>, salt: bytes, commitment: Commitment, auditBinding: Option<Binding>
  )

  datatype AuditItem = AuditItem(
    auditId: string, jobId: string, step: int, recipientKey: Text<bytes>, includeLeaves: bool, expiresAt: real
  )

  datatype RetentionError = NotRetained | BadLeafIndex | Nondeterministic

  /** What the store returns for the latents before and after the step. */
  datatype StepLatents = StepLatents(before: Result<seq<Tensor>, RetentionError>, after: Result<seq<Tensor>, RetentionError>)

  datatype Refusal =
    | Expired | JobNotRetained | BadStep | BadKey | BindingMismatch | UnboundJob | Retention(error: RetentionError)
    | SealFailed(seal: SealError)

  function EncodedPath(path: seq<LeafDigest>): seq<Text<LeafDigest>> {
    seq(|path|, i requires 0 <= i < |path| => Hex(path[i]))
  }

  function SelectedLeaves(leaves: seq<StepLeaf>, indices: seq<int>): seq<StepLeaf>
    requires InRange(indices, |leaves|)
  {
    seq(|indices|, k requires 0 <= k < |indices| => leaves[indices[k]])
  }

  function SelectedProofs(hashes: seq<LeafDigest>, indices: seq<int>): seq<LeafProof>
    requires InRange(indices, |hashes|)
  {
    seq(|indices|, k requires 0 <= k < |indices| => LeafProof(indices[k], EncodedPath(Path(hashes, indices[k]))))
  }

  function BuildOpening(enclaveId: string, item: AuditItem, job: RetainedJob, before: seq<Tensor>, after: seq<Tensor>): Opening
    requires 1 <= item.step < job.commitment.leaves == |job.leaves|
  {
    var indices := RequiredLeaves(item.step, job.commitment.leaves, item.includeLeaves);
    Opening(item.auditId, item.jobId, enclaveId, item.step, job.commitment, job.transcript, Hex(job.salt),
            SelectedLeaves(job.leaves, indices), SelectedProofs(LeafHashes(job.leaves, job.salt), indices),
            [LatentRecord(item.step - 1, Specs(Sort(before, ByName))), LatentRecord(item.step, Specs(Sort(after, ByName)))])
  }

  function RecipientOf(item: AuditItem): bytes {
    if item.recipientKey.Hex? then item.recipientKey.value else []
  }

  /** The checks before anything is revealed, in the enclave's order. */
  function RefusalFor(item: AuditItem, record: Option<RetainedJob>, now: real, requireBinding: bool): Option<Refusal> {
    if item.expiresAt <= now then Some(Expired)
    else if record.None? then Some(JobNotRetained)
    else if !(1 <= item.step < record.value.commitment.leaves) then Some(BadStep)
    else if |RecipientOf(item)| != 32 then Some(BadKey)
    else if record.value.auditBinding.Some? then
      (if KeyHash(RecipientOf(item)) != record.value.auditBinding.value then Some(BindingMismatch) else None)
    else if requireBinding then Some(UnboundJob)
    else None
  }

  function LatentMap(step: int, before: seq<Tensor>, after: seq<Tensor>): (m: map<int, seq<Tensor>>)
    ensures m.Keys == {step - 1, step} && m[step - 1] == before && m[step] == after
  {
    map[step - 1 := before, step := after]
  }

  /** The sealed opening for an audit item, or why the enclave refuses it. A retained job's leaves are those it committed. */
  function OpenStep(
    codec: Codec, enclaveId: string, item: AuditItem, record: Option<RetainedJob>, stored: StepLatents, now: real, requireBinding: bool
  ): Result<SealedOpening, Refusal>
    requires record.Some? ==> record.value.commitment.leaves == |record.value.leaves|
  {
    match RefusalFor(item, record, now, requireBinding)
    case Some(r) => Failure(r)
    case None =>
      if stored.before.Failure? then Failure(Retention(stored.before.error))
      else if stored.after.Failure? then Failure(Retention(stored.after.error))
      else
        var (before, after) := (stored.before.value, stored.after.value);
        var opening := BuildOpening(enclaveId, item, record.value, before, after);
        match SealOpening(codec, opening, LatentMap(item.step, before, after), RecipientOf(item))
        case Failure(e) => Failure(SealFailed(e))
        case Success(sealed) => Success(sealed)
  }

  // ------------------------------------------------------------ end to end

  /** A job as the recorder retains it: the commitment is built from its leaves and salt, and is for this job. */
  predicate Retained(job: RetainedJob, jobId: string) {
    && BuildCommitment(job.transcript, job.leaves, job.salt) == Success(job.commitment)
    && job.transcript.jobId == jobId
  }

  /** A stored latent is the state a leaf digests, with the layout the transcript gives its stage. */
  predicate StoredState(job: RetainedJob, index: int, latent: seq<Tensor>) {
    var items := Sort(latent, ByName);
    && 0 <= index < |job.leaves| && job.leaves[index].stage < |job.transcript.stages|
    && WellFormedState(items)
    && job.leaves[index].latent == LatentHash(items)
    && Specs(items) == Sort(job.transcript.stages[job.leaves[index].stage].tensors, SpecByName)
  }

  lemma {:induction false} DecodedEncoded(path: seq<LeafDigest>)
    ensures Decoded(EncodedPath(path)) == Some(path)
  {
    if path != [] {
      var front := path[..|path| - 1];
      DecodedEncoded(front);
      assert EncodedPath(path)[..|path| - 1] == EncodedPath(front);
      assert path == front + [path[|path| - 1]];
    }
  }

  lemma {:induction false} LookupSelectedLeaf(leaves: seq<StepLeaf>, indices: seq<int>, k: nat)
    requires InRange(indices, |leaves|) && k < |indices|
    requires forall i :: 0 <= i < |leaves| ==> leaves[i].index == i
    ensures var found := LeavesByIndex(SelectedLeaves(leaves, indices));
            indices[k] in found && found[indices[k]] == leaves[indices[k]]
    decreases |indices|
  {
    var n := |indices| - 1;
    assert SelectedLeaves(leaves, indices)[..n] == SelectedLeaves(leaves, indices[..n]);
    if k < n { LookupSelectedLeaf(leaves, indices[..n], k); }
  }

  lemma {:induction false} LookupSelectedProof(hashes: seq<LeafDigest>, indices: seq<int>, k: nat)
    requires InRange(indices, |hashes|) && k < |indices|
    ensures var found := ProofsByIndex(SelectedProofs(hashes, indices));
            indices[k] in found && found[indices[k]].path == EncodedPath(Path(hashes, indices[k]))
    decreases |indices|
  {
    var n := |indices| - 1;
    assert SelectedProofs(hashes, indices)[..n] == SelectedProofs(hashes, indices[..n]);
    if k < n { LookupSelectedProof(hashes, indices[..n], k); }
  }

  /** A committed leaf with the tree's own audit path passes. */
  lemma CommittedLeafPasses(
    committed: seq<StepLeaf>, salt: bytes, layout: seq<Slot>, leaves: map<int, StepLeaf>, proofs: map<int, LeafProof>, index: int
  )
    requires |layout| == |committed| && 0 <= index < |committed| && OnSchedule(layout, committed)
    requires index in leaves && leaves[index] == committed[index]
    requires index in proofs && proofs[index].path == EncodedPath(Path(LeafHashes(committed, salt), index))
    ensures LeafProblem(Root(LeafHashes(committed, salt)), layout, salt, leaves, proofs, index) == None
  {
    var hashes := LeafHashes(committed, salt);
    DecodedEncoded(Path(hashes, index));
    RebuildIsExact(hashes, LeafHash(salt, committed[index]), index, Path(hashes, index));
  }

  lemma {:induction false} AllLeavesPass(
    committed: seq<StepLeaf>, salt: bytes, layout: seq<Slot>, leaves: map<int, StepLeaf>, proofs: map<int, LeafProof>, indices: seq<int>
  )
    requires |layout| == |committed| > 0 && OnSchedule(layout, committed) && InRange(indices, |committed|)
    requires forall k :: 0 <= k < |indices| ==> indices[k] in leaves && leaves[indices[k]] == committed[indices[k]]
    requires forall k :: 0 <= k < |indices| ==>
               indices[k] in proofs && proofs[indices[k]].path == EncodedPath(Path(LeafHashes(committed, salt), indices[k]))
    ensures FirstLeafProblem(Root(LeafHashes(committed, salt)), layout, salt, leaves, proofs, indices) == None
  {
    if indices != [] {
      CommittedLeafPasses(committed, salt, layout, leaves, proofs, indices[0]);
      AllLeavesPass(committed, salt, layout, leaves, proofs, indices[1..]);
    }
  }

  lemma ByNameIsOrdering()
    ensures Ordering(ByName)
  {
    forall x, y ensures ByName(x, y) || ByName(y, x) { StringLeqTotal(x.spec.name, y.spec.name); }
    forall x, y, z | ByName(x, y) && ByName(y, z) ensures ByName(x, z) {
      StringLeqTransitive(x.spec.name, y.spec.name, z.spec.name);
    }
  }

  /** Canonical order is the same taken once or twice. */
  lemma {:induction false} CanonicalIsStable(tensors: seq<Tensor>)
    ensures Sort(Sort(tensors, ByName), ByName) == Sort(tensors, ByName)
  {
    ByNameIsOrdering();
    SortSorted(tensors, ByName);
    SortOfSorted(Sort(tensors, ByName), ByName);
  }

  lemma StoredStatePasses(job: RetainedJob, index: int, latent: seq<Tensor>, latents: map<int, seq<Tensor>>)
    requires StoredState(job, index, latent)
    requires index in latents && latents[index] == Sort(latent, ByName)
    ensures LatentProblem(job.transcript.stages[job.leaves[index].stage].tensors, job.leaves[index], latents, index) == None
  {
    CanonicalIsStable(latent);
  }

  lemma RetainedSchedule(job: RetainedJob, jobId: string)
    requires Retained(job, jobId)
    ensures |job.leaves| == |Layout(job.transcript.stages)| == job.commitment.leaves >= 2
    ensures OnSchedule(Layout(job.transcript.stages), job.leaves)
    ensures job.commitment.root == Root(LeafHashes(job.leaves, job.salt))
    ensures forall i :: 0 <= i < |job.leaves| ==> job.leaves[i].index == i && job.leaves[i].stage < |job.transcript.stages|
  {
    forall i | 0 <= i < |job.leaves| ensures job.leaves[i].index == i && job.leaves[i].stage < |job.transcript.stages| {
      LayoutSlot(job.transcript.stages, i);
      assert Matches(job.leaves[i], Layout(job.transcript.stages)[i]);
    }
  }

  lemma HonestHeader(enclaveId: string, item: AuditItem, job: RetainedJob, before: seq<Tensor>, after: seq<Tensor>)
    requires Retained(job, item.jobId) && 1 <= item.step < job.commitment.leaves == |job.leaves|
    ensures HeaderProblem(job.commitment, BuildOpening(enclaveId, item, job, before, after), item.jobId, item.step) == None
  {
  }

  lemma SelectionPasses(committed: seq<StepLeaf>, salt: bytes, layout: seq<Slot>, required: seq<int>)
    requires |layout| == |committed| > 0 && OnSchedule(layout, committed) && InRange(required, |committed|)
    requires forall i :: 0 <= i < |committed| ==> committed[i].index == i
    ensures var leaves := LeavesByIndex(SelectedLeaves(committed, required));
            var hashes := LeafHashes(committed, salt);
            && FirstLeafProblem(Root(hashes), layout, salt, leaves, ProofsByIndex(SelectedProofs(hashes, required)), required) == None
            && forall k :: 0 <= k < |required| ==> required[k] in leaves && leaves[required[k]] == committed[required[k]]
  {
    var hashes := LeafHashes(committed, salt);
    var (leaves, proofs) := (LeavesByIndex(SelectedLeaves(committed, required)), ProofsByIndex(SelectedProofs(hashes, required)));
    forall k | 0 <= k < |required|
      ensures required[k] in leaves && leaves[required[k]] == committed[required[k]]
      ensures required[k] in proofs && proofs[required[k]].path == EncodedPath(Path(hashes, required[k]))
    {
      LookupSelectedLeaf(committed, required, k);
      LookupSelectedProof(hashes, required, k);
    }
    AllLeavesPass(committed, salt, layout, leaves, proofs, required);
  }

  lemma StepLatentsPass(job: RetainedJob, leaves: map<int, StepLeaf>, step: int, before: seq<Tensor>, after: seq<Tensor>)
    requires 1 <= step < |job.leaves| == |Layout(job.transcript.stages)| && OnSchedule(Layout(job.transcript.stages), job.leaves)
    requires StoredState(job, step - 1, before) && StoredState(job, step, after)
    requires step - 1 in leaves && leaves[step - 1] == job.leaves[step - 1]
    requires step in leaves && leaves[step] == job.leaves[step]
    ensures StepLatentProblem(job.transcript.stages, leaves, Canonical(LatentMap(step, before, after)), step) == None
  {
    var (layout, latents) := (Layout(job.transcript.stages), Canonical(LatentMap(step, before, after)));
    assert Matches(job.leaves[step - 1], layout[step - 1]) && Matches(job.leaves[step], layout[step]);
    assert LatentProblem(job.transcript.stages[layout[step - 1].stage].tensors, leaves[step - 1], latents, step - 1) == None by {
      StoredStatePasses(job, step - 1, before, latents);
    }
    assert LatentProblem(job.transcript.stages[layout[step].stage].tensors, leaves[step], latents, step) == None by {
      StoredStatePasses(job, step, after, latents);
    }
  }

  /** The selection of a job's leaves and proofs, with these latents, passes the check of an opening's body. */
  predicate BodyPasses(job: RetainedJob, step: int, required: seq<int>, latents: map<int, seq<Tensor>>) {
    && 1 <= step < |job.leaves| == |Layout(job.transcript.stages)| && InRange(required, |job.leaves|)
    && step - 1 in required && step in required
    && BodyProblem(job.commitment.root, job.transcript.stages, job.salt, LeavesByIndex(SelectedLeaves(job.leaves, required)),
                   ProofsByIndex(SelectedProofs(LeafHashes(job.leaves, job.salt), required)), latents, step, required) == None
  }

  lemma HonestBody(job: RetainedJob, jobId: string, step: int, required: seq<int>, before: seq<Tensor>, after: seq<Tensor>)
    requires Retained(job, jobId) && 1 <= step < |job.leaves| == |Layout(job.transcript.stages)|
    requires InRange(required, |job.leaves|) && step - 1 in required && step in required
    requires StoredState(job, step - 1, before) && StoredState(job, step, after)
    ensures BodyPasses(job, step, required, Canonical(LatentMap(step, before, after)))
  {
    RetainedSchedule(job, jobId);
    SelectionPasses(job.leaves, job.salt, Layout(job.transcript.stages), required);
    StepLatentsPass(job, LeavesByIndex(SelectedLeaves(job.leaves, required)), step, before, after);
  }

  lemma HonestBodyRequired(
    job: RetainedJob, jobId: string, step: int, includeLeaves: bool, before: seq<Tensor>, after: seq<Tensor>
  )
    requires Retained(job, jobId) && 1 <= step < |job.leaves|
    requires StoredState(job, step - 1, before) && StoredState(job, step, after)
    ensures BodyPasses(job, step, RequiredLeaves(step, |job.leaves|, includeLeaves), Canonical(LatentMap(step, before, after)))
  {
    assert |job.leaves| == |Layout(job.transcript.stages)| by { RetainedSchedule(job, jobId); }
    HonestBody(job, jobId, step, RequiredLeaves(step, |job.leaves|, includeLeaves), before, after);
  }

  /** No problem with the header nor with the body of the opening built: no problem. */
  lemma BuiltVerdict(
    enclaveId: string, item: AuditItem, job: RetainedJob, before: seq<Tensor>, after: seq<Tensor>, latents: map<int, seq<Tensor>>
  )
    requires 1 <= item.step < job.commitment.leaves == |job.leaves|
    requires HeaderProblem(job.commitment, BuildOpening(enclaveId, item, job, before, after), item.jobId, item.step) == None
    requires BodyPasses(job, item.step, RequiredLeaves(item.step, |job.leaves|, item.includeLeaves), latents)
    ensures VerifyOpening(job.commitment, BuildOpening(enclaveId, item, job, before, after), latents, item.jobId, item.step,
                          item.includeLeaves) == None
  {
  }

  /** The validator's verdict on the enclave's opening, before any framing. */
  lemma HonestVerdict(
    enclaveId: string, item: AuditItem, job: RetainedJob, before: seq<Tensor>, after: seq<Tensor>
  )
    requires Retained(job, item.jobId) && 1 <= item.step < job.commitment.leaves == |job.leaves|
    requires StoredState(job, item.step - 1, before) && StoredState(job, item.step, after)
    ensures VerifyOpening(job.commitment, BuildOpening(enclaveId, item, job, before, after),
                          Canonical(LatentMap(item.step, before, after)), item.jobId, item.step, item.includeLeaves) == None
  {
    HonestHeader(enclaveId, item, job, before, after);
    HonestBodyRequired(job, item.jobId, item.step, item.includeLeaves, before, after);
    BuiltVerdict(enclaveId, item, job, before, after, Canonical(LatentMap(item.step, before, after)));
  }

  lemma OneRecord(a: LatentRecord, states: map<int, seq<Tensor>>)
    requires a.index in states
    ensures RecordIndices([a]) == {a.index} && FirstBadRecord([a], states) == RecordProblem(a, states[a.index])
  {
    assert [a][..0] == [];
  }

  lemma TwoRecords(a: LatentRecord, b: LatentRecord, states: map<int, seq<Tensor>>)
    requires a.index in states && b.index in states
    ensures RecordIndices([a, b]) == {a.index, b.index}
    ensures FirstBadRecord([a, b], states) == None
            <==> RecordProblem(a, states[a.index]) == None && RecordProblem(b, states[b.index]) == None
  {
    assert [a, b][..1] == [a];
    OneRecord(a, states);
  }

  /** An opening of two latents is sealed exactly when both records describe them and its header is not too long. */
  lemma TwoRecordsSeal(
    codec: Codec, opening: Opening, a: LatentRecord, b: LatentRecord, latents: map<int, seq<Tensor>>, recipient: bytes
  )
    requires opening.latents == [a, b] && latents.Keys == {a.index, b.index}
    ensures SealOpening(codec, opening, latents, recipient).Success?
            <==> && |codec.encode(opening)| < 0x1_0000_0000
                 && RecordProblem(a, Canonical(latents)[a.index]) == None && RecordProblem(b, Canonical(latents)[b.index]) == None
  {
    TwoRecords(a, b, Canonical(latents));
  }

  // ------------------------------------------------------------ when the enclave answers

  /** The item is in time, for a retained job and a step of it, and names a 32-byte key: the one the job is bound to, or any
      for a job bound to none where that is allowed. */
  predicate Answerable(item: AuditItem, record: Option<RetainedJob>, now: real, requireBinding: bool) {
    now < item.expiresAt && record.Some? &&
    var job := record.value;
    && 1 <= item.step <= |job.leaves| - 1
    && item.recipientKey.Hex? && |item.recipientKey.value| == 32
    && (job.auditBinding == Some(KeyHash(item.recipientKey.value)) || (job.auditBinding == None && !requireBinding))
  }

  predicate Stored(latent: Result<seq<Tensor>, RetentionError>) {
    latent.Success? && WellFormedState(Sort(latent.value, ByName))
  }

  lemma RefusedExactly(item: AuditItem, record: Option<RetainedJob>, now: real, requireBinding: bool)
    requires record.Some? ==> record.value.commitment.leaves == |record.value.leaves|
    ensures RefusalFor(item, record, now, requireBinding) == None <==> Answerable(item, record, now, requireBinding)
  {
  }

  /** The record of a latent describes it exactly when it is well formed. */
  lemma RecordDescribes(index: int, latent: seq<Tensor>)
    ensures RecordProblem(LatentRecord(index, Specs(Sort(latent, ByName))), Sort(latent, ByName)) == None
            <==> WellFormedState(Sort(latent, ByName))
  {
  }

  lemma BuiltSeals(
    codec: Codec, enclaveId: string, item: AuditItem, job: RetainedJob, before: seq<Tensor>, after: seq<Tensor>, recipient: bytes
  )
    requires 1 <= item.step < job.commitment.leaves == |job.leaves|
    ensures var opening := BuildOpening(enclaveId, item, job, before, after);
            SealOpening(codec, opening, LatentMap(item.step, before, after), recipient).Success?
            <==> && |codec.encode(opening)| < 0x1_0000_0000
                 && WellFormedState(Sort(before, ByName)) && WellFormedState(Sort(after, ByName))
  {
    var (opening, latents) := (BuildOpening(enclaveId, item, job, before, after), LatentMap(item.step, before, after));
    var a := LatentRecord(item.step - 1, Specs(Sort(before, ByName)));
    var b := LatentRecord(item.step, Specs(Sort(after, ByName)));
    TwoRecordsSeal(codec, opening, a, b, latents, recipient);
    RecordDescribes(item.step - 1, before);
    RecordDescribes(item.step, after);
  }

  /** The enclave answers exactly the items it may answer, for latents that are stored and well formed, as long as the header
      is under 2^32 bytes. */
  lemma OpenStepExactly(
    codec: Codec, enclaveId: string, item: AuditItem, record: Option<RetainedJob>, stored: StepLatents, now: real, requireBinding: bool
  )
    requires record.Some? ==> record.value.commitment.leaves == |record.value.leaves|
    ensures OpenStep(codec, enclaveId, item, record, stored, now, requireBinding).Success?
            <==> && Answerable(item, record, now, requireBinding) && Stored(stored.before) && Stored(stored.after)
                 && |codec.encode(BuildOpening(enclaveId, item, record.value, stored.before.value, stored.after.value))| < 0x1_0000_0000
  {
    RefusedExactly(item, record, now, requireBinding);
    if Answerable(item, record, now, requireBinding) && stored.before.Success? && stored.after.Success? {
      BuiltSeals(codec, enclaveId, item, record.value, stored.before.value, stored.after.value, RecipientOf(item));
    }
  }

  /** The reason for a refusal is one the item gives. */
  lemma RefusalReason(
    codec: Codec, enclaveId: string, item: AuditItem, record: Option<RetainedJob>, stored: StepLatents, now: real,
    requireBinding: bool, reason: Refusal
  )
    requires record.Some? ==> record.value.commitment.leaves == |record.value.leaves|
    requires OpenStep(codec, enclaveId, item, record, stored, now, requireBinding) == Failure(reason)
    ensures reason == Expired <==> item.expiresAt <= now
    ensures reason == JobNotRetained ==> record == None
    ensures reason == BadStep ==> record.Some? && !(1 <= item.step < |record.value.leaves|)
    ensures reason == BadKey ==> item.recipientKey.NotHex? || |item.recipientKey.value| != 32
    ensures reason == BindingMismatch ==>
              record.Some? && record.value.auditBinding.Some?
              && (item.recipientKey.Hex? ==> record.value.auditBinding != Some(KeyHash(item.recipientKey.value)))
    ensures reason == UnboundJob ==> requireBinding && record.Some? && record.value.auditBinding == None
    ensures reason.Retention? ==> Failure(reason.error) in {stored.before, stored.after}
  {
  }

  /** Without all leaves, an opening reveals no leaves but the first and those around the step, and the two latents only. */
  lemma OpeningRevealsOnly(enclaveId: string, item: AuditItem, job: RetainedJob, before: seq<Tensor>, after: seq<Tensor>)
    requires 1 <= item.step < job.commitment.leaves == |job.leaves|
    ensures var opening := BuildOpening(enclaveId, item, job, before, after);
            && opening.auditId == item.auditId && opening.jobId == item.jobId && opening.enclaveId == enclaveId
            && (!item.includeLeaves ==>
                  forall k :: 0 <= k < |opening.leaves| ==>
                    opening.leaves[k] in [job.leaves[0], job.leaves[item.step - 1], job.leaves[item.step]])
            && |opening.latents| == 2 && opening.latents[0].index == item.step - 1 && opening.latents[1].index == item.step
  {
  }

  // ------------------------------------------------------------ the whole audit

  lemma OpenStepParts(
    codec: Codec, enclaveId: string, item: AuditItem, job: RetainedJob, before: seq<Tensor>, after: seq<Tensor>, now: real,
    requireBinding: bool, sealed: SealedOpening
  )
    requires job.commitment.leaves == |job.leaves|
    requires OpenStep(codec, enclaveId, item, Some(job), StepLatents(Success(before), Success(after)), now, requireBinding)
             == Success(sealed)
    ensures 1 <= item.step < |job.leaves|
    ensures SealOpening(codec, BuildOpening(enclaveId, item, job, before, after), LatentMap(item.step, before, after),
                        RecipientOf(item)) == Success(sealed)
  {
  }

  /** Every item about a retained job that the enclave may answer is answered, and its opening opens with the key the item
      names, to the header that was built and the latents in canonical order, and passes the validator's check, for any step
      and with or without all leaves. */
  lemma HonestOpeningAccepted(
    codec: Codec, enclaveId: string, item: AuditItem, job: RetainedJob, before: seq<Tensor>, after: seq<Tensor>, now: real,
    requireBinding: bool
  )
    requires RoundTrips(codec) && Retained(job, item.jobId) && job.commitment.leaves == |job.leaves|
    requires Answerable(item, Some(job), now, requireBinding)
    requires StoredState(job, item.step - 1, before) && StoredState(job, item.step, after)
    requires |codec.encode(BuildOpening(enclaveId, item, job, before, after))| < 0x1_0000_0000
    ensures var answer :=
              OpenStep(codec, enclaveId, item, Some(job), StepLatents(Success(before), Success(after)), now, requireBinding);
            var opening := BuildOpening(enclaveId, item, job, before, after);
            var latents := Canonical(LatentMap(item.step, before, after));
            && answer.Success?
            && Opened(codec, item.recipientKey.value, answer.value) == Success((opening, latents))
            && VerifyOpening(job.commitment, opening, latents, item.jobId, item.step, item.includeLeaves) == None
  {
    var stored := StepLatents(Success(before), Success(after));
    OpenStepExactly(codec, enclaveId, item, Some(job), stored, now, requireBinding);
    var sealed := OpenStep(codec, enclaveId, item, Some(job), stored, now, requireBinding).value;
    OpenStepParts(codec, enclaveId, item, job, before, after, now, requireBinding, sealed);
    SealedOpens(codec, BuildOpening(enclaveId, item, job, before, after), LatentMap(item.step, before, after), RecipientOf(item));
    HonestVerdict(enclaveId, item, job, before, after);
  }
}
