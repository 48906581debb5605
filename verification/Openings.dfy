/**
  Step commitments and audit openings: what a trajectory commits to, what the enclave reveals for one step, how the
  revealed header and latent bytes are framed and sealed, and what the validator checks before re-executing the step.

  Hashes and HPKE are ideal: a digest is the value it digests, and a box opens only to the key it was sealed to.
 */
module Openings {
  import opened Digits
  import opened Merkle
  import opened Sorting
  import opened Wrappers

  const SALT_BYTES := 32
  const OPENING_MAGIC: bytes := [75, 85, 78, 79, 83, 84, 69, 80, 49, 10] // "KUNOSTEP1\n"

  // ------------------------------------------------------------ latents

  datatype Dtype = Float16 | BFloat16 | Float32 | Float64 {
    function Size(): nat {
      match this
      case Float16 => 2
      case BFloat16 => 2
      case Float32 => 4
      case Float64 => 8
    }
  }

  datatype TensorSpec = TensorSpec(name: string, dtype: Dtype, shape: seq<nat>) {
    function NBytes(): nat {
      Product(shape, dtype.Size())
    }
  }

  function Product(shape: seq<nat>, n: nat): nat {
    if shape == [] then n else Product(shape[1..], n * shape[0])
  }

  /** A tensor takes 2, 4 or 8 bytes for each element, and has an element for each index of its axes. */
  lemma BytesOfShape(name: string, dtype: Dtype, shape: seq<nat>, axis: nat)
    ensures TensorSpec(name, dtype, []).NBytes()
            == match dtype case Float16 => 2 case BFloat16 => 2 case Float32 => 4 case Float64 => 8
    ensures TensorSpec(name, dtype, shape + [axis]).NBytes() == TensorSpec(name, dtype, shape).NBytes() * axis
  {
    ProductSnoc(shape, axis, dtype.Size());
  }

  lemma {:induction false} ProductSnoc(shape: seq<nat>, axis: nat, n: nat)
    ensures Product(shape + [axis], n) == Product(shape, n) * axis
  {
    if shape == [] {
      assert [axis][1..] == [];
    } else {
      assert (shape + [axis])[1..] == shape[1..] + [axis];
      ProductSnoc(shape[1..], axis, n * shape[0]);
    }
  }

  datatype Tensor = Tensor(spec: TensorSpec, data: bytes)

  predicate ByName(a: Tensor, b: Tensor) {
    StringLeq(a.spec.name, b.spec.name)
  }

  predicate SpecByName(a: TensorSpec, b: TensorSpec) {
    StringLeq(a.name, b.name)
  }

  function Specs(tensors: seq<Tensor>): (specs: seq<TensorSpec>)
    ensures |specs| == |tensors| && forall i :: 0 <= i < |specs| ==> specs[i] == tensors[i].spec
  {
    seq(|tensors|, i requires 0 <= i < |tensors| => tensors[i].spec)
  }

  predicate WellFormedState(items: seq<Tensor>) {
    && items != []
    && (forall i, j :: 0 <= i < j < |items| ==> items[i].spec.name != items[j].spec.name)
    && (forall i :: 0 <= i < |items| ==> |items[i].data| == items[i].spec.NBytes())
  }

  datatype StateError = MalformedState

  /** A latent state in canonical order; refused when it is empty, repeats a name, or a tensor has the wrong size. */
  function CanonicalState(tensors: seq<Tensor>): Result<seq<Tensor>, StateError> {
    var items := Sort(tensors, ByName);
    if WellFormedState(items) then Success(items) else Failure(MalformedState)
  }

  /** Tensors are a latent state exactly when there are some, no two of the same name, each with as many bytes as its shape
      takes. */
  lemma StateExactly(tensors: seq<Tensor>)
    ensures CanonicalState(tensors).Success? <==>
            && |tensors| > 0 && (forall i, j :: 0 <= i < j < |tensors| ==> tensors[i].spec.name != tensors[j].spec.name)
            && (forall i :: 0 <= i < |tensors| ==> |tensors[i].data| == tensors[i].spec.NBytes())
  {
    SortKeepsElements(tensors, ByName);
    SameDemands(tensors, Sort(tensors, ByName));
    SameDemands(Sort(tensors, ByName), tensors);
  }

  lemma SameDemands(s: seq<Tensor>, t: seq<Tensor>)
    requires multiset(s) == multiset(t)
    ensures |s| == |t|
    ensures (forall i, j :: 0 <= i < j < |s| ==> s[i].spec.name != s[j].spec.name) ==>
              forall i, j :: 0 <= i < j < |t| ==> t[i].spec.name != t[j].spec.name
    ensures (forall i :: 0 <= i < |s| ==> |s[i].data| == s[i].spec.NBytes()) ==>
              forall i :: 0 <= i < |t| ==> |t[i].data| == t[i].spec.NBytes()
  {
    assert |multiset(s)| == |s| && |multiset(t)| == |t|;
    var same := (a: Tensor, b: Tensor) => a.spec.name == b.spec.name;
    ApartIgnoresOrder(s, t, same);
    assert Apart(t, same) ==> forall i, j :: 0 <= i < j < |t| ==> !same(t[i], t[j]);
    forall i | 0 <= i < |t| ensures t[i] in s {
      assert t[i] in multiset(s);
    }
  }

  datatype LatentDigest = LatentHash(items: seq<Tensor>) | OtherLatent(hex: string)

  // ------------------------------------------------------------ transcript and layout

  datatype Stage = Stage(name: string, sigmas: seq<string>, tensors: seq<TensorSpec>, settings: string)

  datatype Transcript = Transcript(jobId: string, hardwareClass: string, stages: seq<Stage>, rest: string)

  datatype TranscriptDigest = TranscriptHash(transcript: Transcript) | OtherTranscript(hex: string)

  datatype Kind = Init | Denoise

  datatype Slot = Slot(index: nat, stage: nat, kind: Kind, sigma: string)

  function StageSlots(sigmas: seq<string>, stage: nat, offset: nat): (slots: seq<Slot>)
    ensures |slots| == |sigmas|
    ensures forall i :: 0 <= i < |sigmas| ==> slots[i] == Slot(offset + i, stage, if i == 0 then Init else Denoise, sigmas[i])
  {
    seq(|sigmas|, i requires 0 <= i < |sigmas| => Slot(offset + i, stage, if i == 0 then Init else Denoise, sigmas[i]))
  }

  function Layout(stages: seq<Stage>): seq<Slot> {
    if stages == [] then []
    else
      var before := Layout(stages[..|stages| - 1]);
      before + StageSlots(stages[|stages| - 1].sigmas, |stages| - 1, |before|)
  }

  /** Slots are numbered in order, and each belongs to a stage of the transcript. */
  lemma {:induction false} LayoutSlot(stages: seq<Stage>, i: nat)
    requires i < |Layout(stages)|
    ensures Layout(stages)[i].index == i && Layout(stages)[i].stage < |stages|
  {
    var front := stages[..|stages| - 1];
    if i < |Layout(front)| { LayoutSlot(front, i); }
  }

  /** How many sigmas the stages have together. */
  function SigmaCount(stages: seq<Stage>): nat {
    if stages == [] then 0 else SigmaCount(stages[..|stages| - 1]) + |stages[|stages| - 1].sigmas|
  }

  lemma {:induction false} LayoutLength(stages: seq<Stage>)
    ensures |Layout(stages)| == SigmaCount(stages)
  {
    if stages != [] { LayoutLength(stages[..|stages| - 1]); }
  }

  /** The j-th sigma of stage s is the slot behind all sigmas of the stages before, and the first of its stage starts it. */
  lemma {:induction false} SlotExactly(stages: seq<Stage>, s: nat, j: nat)
    requires s < |stages| && j < |stages[s].sigmas|
    ensures var at := SigmaCount(stages[..s]) + j;
            at < |Layout(stages)| && Layout(stages)[at] == Slot(at, s, if j == 0 then Init else Denoise, stages[s].sigmas[j])
  {
    var front := stages[..|stages| - 1];
    LayoutLength(front);
    if s < |front| {
      SlotExactly(front, s, j);
      assert front[..s] == stages[..s];
    }
  }

  /** The schedule a transcript commits to, slot by slot. */
  method ExpectedLayout(transcript: Transcript) returns (slots: seq<Slot>)
    ensures slots == Layout(transcript.stages)
  {
    slots := [];
    for s := 0 to |transcript.stages|
      invariant slots == Layout(transcript.stages[..s])
    {
      var sigmas := transcript.stages[s].sigmas;
      ghost var before := slots;
      for i := 0 to |sigmas|
        invariant slots == before + StageSlots(sigmas, s, |before|)[..i]
      {
        slots := slots + [Slot(|slots|, s, if i == 0 then Init else Denoise, sigmas[i])];
      }
      assert transcript.stages[..s + 1][..s] == transcript.stages[..s];
    }
    assert transcript.stages[..|transcript.stages|] == transcript.stages;
  }

  predicate Scheduled(stages: seq<Stage>) {
    forall s :: 0 <= s < |stages| ==> |stages[s].sigmas| >= 2
  }

  function DenoiseCount(slots: seq<Slot>): nat {
    if slots == [] then 0
    else DenoiseCount(slots[..|slots| - 1]) + (if slots[|slots| - 1].kind == Denoise then 1 else 0)
  }

  lemma {:induction false} DenoiseCountOfStage(before: seq<Slot>, sigmas: seq<string>, stage: nat, n: nat)
    requires n <= |sigmas|
    ensures DenoiseCount(before + StageSlots(sigmas, stage, |before|)[..n]) == DenoiseCount(before) + (if n == 0 then 0 else n - 1)
  {
    var slots := StageSlots(sigmas, stage, |before|);
    if n == 0 {
      assert before + slots[..0] == before;
    } else {
      DenoiseCountOfStage(before, sigmas, stage, n - 1);
      var all := before + slots[..n];
      assert all[..|all| - 1] == before + slots[..n - 1];
    }
  }

  /** Every leaf is a stage's initial latent or a denoising step. */
  lemma {:induction false} StepsAndStages(stages: seq<Stage>)
    requires Scheduled(stages)
    ensures DenoiseCount(Layout(stages)) + |stages| == |Layout(stages)| >= 2 * |stages|
  {
    if stages != [] {
      var front := stages[..|stages| - 1];
      StepsAndStages(front);
      var sigmas := stages[|stages| - 1].sigmas;
      DenoiseCountOfStage(Layout(front), sigmas, |stages| - 1, |sigmas|);
      var slots := StageSlots(sigmas, |stages| - 1, |Layout(front)|);
      assert slots[..|sigmas|] == slots;
    }
  }

  // ------------------------------------------------------------ commitment

  datatype StepLeaf = StepLeaf(index: nat, stage: nat, kind: Kind, sigma: string, latent: LatentDigest)

  type LeafDigest = Digest<StepLeaf>

  predicate Matches(leaf: StepLeaf, slot: Slot) {
    leaf.index == slot.index && leaf.stage == slot.stage && leaf.kind == slot.kind && leaf.sigma == slot.sigma
  }

  datatype Commitment = Commitment(
    root: LeafDigest, leaves: nat, steps: nat, latentShape: seq<nat>, dtype: Dtype, hardwareClass: string,
    transcriptDigest: TranscriptDigest
  )

  datatype CommitError = WrongLeafCount | LeafOffSchedule | BadSalt | NoTensors | InvalidCommitment

  function LeafHashes(leaves: seq<StepLeaf>, salt: bytes): (hashes: seq<LeafDigest>)
    ensures |hashes| == |leaves| && AllHashes(hashes)
    ensures forall i :: 0 <= i < |leaves| ==> hashes[i] == LeafHash(salt, leaves[i])
  {
    seq(|leaves|, i requires 0 <= i < |leaves| => LeafHash(salt, leaves[i]))
  }

  predicate OnSchedule(layout: seq<Slot>, leaves: seq<StepLeaf>)
    requires |layout| == |leaves|
  {
    forall i :: 0 <= i < |leaves| ==> Matches(leaves[i], layout[i])
  }

  /** The tensor named "video", or else the first. */
  function Primary(tensors: seq<TensorSpec>): (r: Option<TensorSpec>)
    ensures r.None? <==> tensors == []
  {
    if tensors == [] then None else Some(PrimaryFrom(tensors, 0))
  }

  function PrimaryFrom(tensors: seq<TensorSpec>, i: nat): TensorSpec
    requires tensors != [] && i <= |tensors|
    decreases |tensors| - i
  {
    if i == |tensors| then tensors[0] else if tensors[i].name == "video" then tensors[i] else PrimaryFrom(tensors, i + 1)
  }

  /** The primary tensor is the first one named "video", or the first of all where none is. */
  lemma PrimaryIs(tensors: seq<TensorSpec>, i: nat)
    requires i < |tensors| && (forall k :: 0 <= k < i ==> tensors[k].name != "video")
    ensures tensors[i].name == "video" ==> Primary(tensors) == Some(tensors[i])
    ensures (forall k :: 0 <= k < |tensors| ==> tensors[k].name != "video") ==> Primary(tensors) == Some(tensors[0])
  {
    PrimarySkips(tensors, 0, i);
    if forall k :: 0 <= k < |tensors| ==> tensors[k].name != "video" { PrimarySkips(tensors, 0, |tensors|); }
  }

  lemma {:induction false} PrimarySkips(tensors: seq<TensorSpec>, a: nat, b: nat)
    requires tensors != [] && a <= b <= |tensors| && forall k :: a <= k < b ==> tensors[k].name != "video"
    ensures PrimaryFrom(tensors, a) == PrimaryFrom(tensors, b)
    decreases b - a
  {
    if a < b { PrimarySkips(tensors, a + 1, b); }
  }

  function BuildCommitment(transcript: Transcript, leaves: seq<StepLeaf>, salt: bytes): Result<Commitment, CommitError> {
    var layout := Layout(transcript.stages);
    if |leaves| != |layout| then Failure(WrongLeafCount)
    else if !OnSchedule(layout, leaves) then Failure(LeafOffSchedule)
    else if |salt| != SALT_BYTES then Failure(BadSalt)
    else if transcript.stages == [] || transcript.stages[|transcript.stages| - 1].tensors == [] then Failure(NoTensors)
    else if |leaves| < 2 || DenoiseCount(layout) < 1 then Failure(InvalidCommitment)
    else
      var final := Primary(transcript.stages[|transcript.stages| - 1].tensors).value;
      Success(Commitment(Root(LeafHashes(leaves, salt)), |leaves|, DenoiseCount(layout), final.shape, final.dtype,
                         transcript.hardwareClass, TranscriptHash(transcript)))
  }

  /** Leaves are committed to exactly when they follow the transcript's schedule, one for each slot, the salt has 32 bytes, and
      there is a final tensor and a step; the commitment is to the root of the salted leaves and to the transcript. */
  lemma CommitmentExactly(transcript: Transcript, leaves: seq<StepLeaf>, salt: bytes)
    ensures var (stages, layout) := (transcript.stages, Layout(transcript.stages));
            BuildCommitment(transcript, leaves, salt).Success? <==>
            && |leaves| == |layout| >= 2 && |salt| == 32 && stages != [] && stages[|stages| - 1].tensors != []
            && (forall i :: 0 <= i < |leaves| ==>
                  Slot(leaves[i].index, leaves[i].stage, leaves[i].kind, leaves[i].sigma) == layout[i])
            && DenoiseCount(layout) >= 1
    ensures BuildCommitment(transcript, leaves, salt).Success? ==>
              var c := BuildCommitment(transcript, leaves, salt).value;
              var final := Primary(transcript.stages[|transcript.stages| - 1].tensors);
              && c.root == Root(LeafHashes(leaves, salt)) && c.leaves == |leaves|
              && c.steps == DenoiseCount(Layout(transcript.stages))
              && c.hardwareClass == transcript.hardwareClass && c.transcriptDigest == TranscriptHash(transcript)
              && final.Some? && c.latentShape == final.value.shape && c.dtype == final.value.dtype
  {
    var layout := Layout(transcript.stages);
    if |leaves| == |layout| { ScheduledLeaves(layout, leaves); }
  }

  lemma ScheduledLeaves(layout: seq<Slot>, leaves: seq<StepLeaf>)
    requires |layout| == |leaves|
    ensures OnSchedule(layout, leaves) <==>
            forall i :: 0 <= i < |leaves| ==> Slot(leaves[i].index, leaves[i].stage, leaves[i].kind, leaves[i].sigma) == layout[i]
  {
    forall i | 0 <= i < |leaves|
      ensures Matches(leaves[i], layout[i])
              <==> Slot(leaves[i].index, leaves[i].stage, leaves[i].kind, leaves[i].sigma) == layout[i]
    {
    }
  }

  // ------------------------------------------------------------ openings

  datatype Text<T> = Hex(value: T) | NotHex(text: string)

  datatype LeafProof = LeafProof(index: int, path: seq<Text<LeafDigest>>)

  datatype LatentRecord = LatentRecord(index: int, tensors: seq<TensorSpec>)

  datatype Opening = Opening(
    auditId: string, jobId: string, enclaveId: string, step: int, commitment: Commitment, transcript: Transcript,
    salt: Text<bytes>, leaves: seq<StepLeaf>, proofs: seq<LeafProof>, latents: seq<LatentRecord>
  )

  predicate InRange(indices: seq<int>, size: nat) {
    forall k :: 0 <= k < |indices| ==> 0 <= indices[k] < size
  }

  function RequiredLeaves(step: int, leaves: nat, includeLeaves: bool): (r: seq<int>)
    requires 1 <= step < leaves
    ensures InRange(r, leaves)
    ensures 0 in r && step - 1 in r && step in r
    ensures includeLeaves ==> |r| == leaves && forall i :: 0 <= i < leaves ==> r[i] == i
    ensures !includeLeaves ==> forall i :: 0 <= i < |r| ==> r[i] == 0 || r[i] == step - 1 || r[i] == step
    ensures forall i, j :: 0 <= i < j < |r| ==> r[i] < r[j]
  {
    if includeLeaves then
      var all := seq(leaves, i => i as int);
      assert all[0] == 0 && all[step - 1] == step - 1 && all[step] == step;
      all
    else if step == 1 then [0, 1]
    else [0, step - 1, step]
  }

  /** `{leaf.index: leaf for leaf in leaves}`: the last entry for an index wins. */
  function LeavesByIndex(leaves: seq<StepLeaf>): map<int, StepLeaf> {
    if leaves == [] then map[] else
    var last := leaves[|leaves| - 1];
    LeavesByIndex(leaves[..|leaves| - 1])[last.index as int := last]
  }

  function ProofsByIndex(proofs: seq<LeafProof>): map<int, LeafProof> {
    if proofs == [] then map[] else
    var last := proofs[|proofs| - 1];
    ProofsByIndex(proofs[..|proofs| - 1])[last.index := last]
  }

  function Decoded(path: seq<Text<LeafDigest>>): Option<seq<LeafDigest>> {
    if path == [] then Some([])
    else
      match Decoded(path[..|path| - 1])
      case Some(front) => if path[|path| - 1].Hex? then Some(front + [path[|path| - 1].value]) else None
      case None => None
  }

  /** A path decodes exactly when all of it is hexadecimal, to what that spells. */
  lemma {:induction false} DecodedExactly(path: seq<Text<LeafDigest>>)
    ensures Decoded(path).Some? <==> forall i :: 0 <= i < |path| ==> path[i].Hex?
    ensures Decoded(path).Some? ==>
              |Decoded(path).value| == |path| && forall i :: 0 <= i < |path| ==> path[i] == Hex(Decoded(path).value[i])
  {
    if path != [] {
      var front := path[..|path| - 1];
      DecodedExactly(front);
      assert forall i :: 0 <= i < |front| ==> path[i] == front[i];
    }
  }

  /** Of the leaves, and of the proofs, given for one index the last counts. */
  lemma {:induction false} LastLeafCounts(leaves: seq<StepLeaf>, i: nat)
    requires i < |leaves| && forall j :: i < j < |leaves| ==> leaves[j].index != leaves[i].index
    ensures leaves[i].index in LeavesByIndex(leaves) && LeavesByIndex(leaves)[leaves[i].index] == leaves[i]
  {
    if i < |leaves| - 1 { LastLeafCounts(leaves[..|leaves| - 1], i); }
  }

  lemma {:induction false} LastProofCounts(proofs: seq<LeafProof>, i: nat)
    requires i < |proofs| && forall j :: i < j < |proofs| ==> proofs[j].index != proofs[i].index
    ensures proofs[i].index in ProofsByIndex(proofs) && ProofsByIndex(proofs)[proofs[i].index] == proofs[i]
  {
    if i < |proofs| - 1 { LastProofCounts(proofs[..|proofs| - 1], i); }
  }

  /** And nothing is revealed at an index for which none is given. */
  lemma {:induction false} OnlyGiven(leaves: seq<StepLeaf>, proofs: seq<LeafProof>, index: int)
    ensures index in LeavesByIndex(leaves) ==> exists i :: 0 <= i < |leaves| && leaves[i].index == index
    ensures index in ProofsByIndex(proofs) ==> exists i :: 0 <= i < |proofs| && proofs[i].index == index
    decreases |leaves| + |proofs|
  {
    if leaves != [] { OnlyGiven(leaves[..|leaves| - 1], proofs, index); }
    if proofs != [] { OnlyGiven(leaves, proofs[..|proofs| - 1], index); }
  }

  datatype Problem =
    | DifferentCommitment | DifferentTranscript | DifferentJob | DifferentHardware | DifferentSchedule | DifferentLayout
    | DifferentStep | MalformedSalt | OmittedLeaf(index: int) | LeafMismatch(index: int) | MalformedProof(index: int)
    | UnprovenLeaf(index: int) | OmittedLatent(index: int) | LatentLayout(index: int) | InvalidLatent(index: int)
    | LatentMismatch(index: int)

  /** The problem with one required leaf, if any. */
  function LeafProblem(
    root: LeafDigest, layout: seq<Slot>, salt: bytes, leaves: map<int, StepLeaf>, proofs: map<int, LeafProof>, index: int
  ): Option<Problem>
    requires 0 <= index < |layout|
  {
    if index !in leaves || index !in proofs then Some(OmittedLeaf(index))
    else if !Matches(leaves[index], layout[index]) then Some(LeafMismatch(index))
    else
      match Decoded(proofs[index].path)
      case None => Some(MalformedProof(index))
      case Some(path) =>
        if Authenticates(root, LeafHash(salt, leaves[index]), index, |layout|, path) then None else Some(UnprovenLeaf(index))
  }

  /** A revealed leaf passes exactly when it is the schedule's and a path given for it, all hexadecimal, leads to the root. */
  lemma LeafExactly(
    root: LeafDigest, layout: seq<Slot>, salt: bytes, leaves: map<int, StepLeaf>, proofs: map<int, LeafProof>, index: int
  )
    requires 0 <= index < |layout|
    ensures LeafProblem(root, layout, salt, leaves, proofs, index) == None <==>
            && index in leaves && index in proofs
            && var leaf := leaves[index];
               && Slot(leaf.index, leaf.stage, leaf.kind, leaf.sigma) == layout[index]
               && exists path :: Decoded(proofs[index].path) == Some(path)
                                 && Rebuild(LeafHash(salt, leaf), index, |layout|, path) == Some(root)
  {
    if index in proofs && Decoded(proofs[index].path).Some? {
      var path := Decoded(proofs[index].path).value;
      assert Decoded(proofs[index].path) == Some(path);
    }
  }

  function FirstLeafProblem(
    root: LeafDigest, layout: seq<Slot>, salt: bytes, leaves: map<int, StepLeaf>, proofs: map<int, LeafProof>,
    indices: seq<int>
  ): Option<Problem>
    requires InRange(indices, |layout|)
  {
    if indices == [] then None
    else
      match LeafProblem(root, layout, salt, leaves, proofs, indices[0])
      case Some(p) => Some(p)
      case None => FirstLeafProblem(root, layout, salt, leaves, proofs, indices[1..])
  }

  /** Every index that passes is among the revealed leaves. */
  lemma {:induction false} PassedLeavesPresent(
    root: LeafDigest, layout: seq<Slot>, salt: bytes, leaves: map<int, StepLeaf>, proofs: map<int, LeafProof>, indices: seq<int>
  )
    requires InRange(indices, |layout|)
    requires FirstLeafProblem(root, layout, salt, leaves, proofs, indices) == None
    ensures forall k :: 0 <= k < |indices| ==> indices[k] in leaves
  {
    if indices != [] {
      var rest := indices[1..];
      PassedLeavesPresent(root, layout, salt, leaves, proofs, rest);
      assert forall k :: 0 < k < |indices| ==> indices[k] == rest[k - 1];
    }
  }

  /** The problem with one revealed latent, if any. */
  function LatentProblem(expected: seq<TensorSpec>, leaf: StepLeaf, latents: map<int, seq<Tensor>>, index: int): Option<Problem> {
    if index !in latents then Some(OmittedLatent(index))
    else if Specs(Sort(latents[index], ByName)) != Sort(expected, SpecByName) then Some(LatentLayout(index))
    else
      match CanonicalState(latents[index])
      case Failure(_) => Some(InvalidLatent(index))
      case Success(items) => if LatentHash(items) != leaf.latent then Some(LatentMismatch(index)) else None
  }

  /** The problem with an opening's header: everything the check looks at before the leaves. */
  function HeaderProblem(commitment: Commitment, opening: Opening, jobId: string, step: int): Option<Problem> {
    var stages := opening.transcript.stages;
    var layout := Layout(stages);
    if opening.commitment != commitment then Some(DifferentCommitment)
    else if TranscriptHash(opening.transcript) != commitment.transcriptDigest then Some(DifferentTranscript)
    else if opening.transcript.jobId != jobId || opening.jobId != jobId then Some(DifferentJob)
    else if opening.transcript.hardwareClass != commitment.hardwareClass then Some(DifferentHardware)
    else if |layout| != commitment.leaves || DenoiseCount(layout) != commitment.steps then Some(DifferentSchedule)
    else if stages == [] || stages[|stages| - 1].tensors == [] then Some(DifferentLayout)
    else
      var final := Primary(stages[|stages| - 1].tensors).value;
      if final.shape != commitment.latentShape || final.dtype != commitment.dtype then Some(DifferentLayout)
      else if opening.step != step || !(1 <= step < commitment.leaves) then Some(DifferentStep)
      else if opening.salt.NotHex? || |opening.salt.value| != SALT_BYTES then Some(MalformedSalt)
      else None
  }

  /** The problem with the latents around the step, if any. */
  function StepLatentProblem(
    stages: seq<Stage>, leaves: map<int, StepLeaf>, latents: map<int, seq<Tensor>>, step: int
  ): Option<Problem>
    requires 1 <= step < |Layout(stages)| && step - 1 in leaves && step in leaves
  {
    var layout := Layout(stages);
    LayoutSlot(stages, step - 1);
    LayoutSlot(stages, step);
    match LatentProblem(stages[layout[step - 1].stage].tensors, leaves[step - 1], latents, step - 1)
    case Some(p) => Some(p)
    case None => LatentProblem(stages[layout[step].stage].tensors, leaves[step], latents, step)
  }

  /** The problem with what an opening reveals: first the required leaves, then the two latents. */
  function BodyProblem(
    root: LeafDigest, stages: seq<Stage>, salt: bytes, leaves: map<int, StepLeaf>, proofs: map<int, LeafProof>,
    latents: map<int, seq<Tensor>>, step: int, required: seq<int>
  ): Option<Problem>
    requires 1 <= step < |Layout(stages)| && InRange(required, |Layout(stages)|)
    requires step - 1 in required && step in required
  {
    match FirstLeafProblem(root, Layout(stages), salt, leaves, proofs, required)
    case Some(p) => Some(p)
    case None =>
      PassedLeavesPresent(root, Layout(stages), salt, leaves, proofs, required);
      StepLatentProblem(stages, leaves, latents, step)
  }

  /** The validator's check of an opening against the commitment in the signed receipt. None means it holds. */
  function VerifyOpening(
    commitment: Commitment, opening: Opening, latents: map<int, seq<Tensor>>, jobId: string, step: int, includeLeaves: bool
  ): Option<Problem> {
    match HeaderProblem(commitment, opening, jobId, step)
    case Some(p) => Some(p)
    case None =>
      BodyProblem(commitment.root, opening.transcript.stages, opening.salt.value, LeavesByIndex(opening.leaves),
                  ProofsByIndex(opening.proofs), latents, step, RequiredLeaves(step, commitment.leaves, includeLeaves))
  }

  // ------------------------------------------------------------ what the check asks for

  /** The header that holds: the receipt's own commitment, the transcript it digests, for this job and step, on the committed
      hardware, with a schedule and a final latent of the committed size, and a salt of 32 bytes. */
  predicate HeaderHolds(commitment: Commitment, opening: Opening, jobId: string, step: int) {
    var (transcript, stages) := (opening.transcript, opening.transcript.stages);
    && opening.commitment == commitment && commitment.transcriptDigest == TranscriptHash(transcript)
    && opening.jobId == jobId && transcript.jobId == jobId && opening.step == step && 1 <= step <= commitment.leaves - 1
    && transcript.hardwareClass == commitment.hardwareClass
    && commitment.leaves == SigmaCount(stages) && commitment.steps == DenoiseCount(Layout(stages))
    && opening.salt.Hex? && |opening.salt.value| == 32
    && stages != [] && match Primary(stages[|stages| - 1].tensors)
       case None => false
       case Some(final) => final.shape == commitment.latentShape && final.dtype == commitment.dtype
  }

  lemma HeaderExactly(commitment: Commitment, opening: Opening, jobId: string, step: int)
    ensures HeaderProblem(commitment, opening, jobId, step) == None <==> HeaderHolds(commitment, opening, jobId, step)
  {
    LayoutLength(opening.transcript.stages);
  }

  /** The latent that holds at an index: revealed, with the tensors the transcript lists for its stage, and digested by the
      leaf in canonical order. */
  lemma LatentExactly(expected: seq<TensorSpec>, leaf: StepLeaf, latents: map<int, seq<Tensor>>, index: int)
    ensures LatentProblem(expected, leaf, latents, index) == None
            <==> Digests(leaf, latents, index) && Specs(Sort(latents[index], ByName)) == Sort(expected, SpecByName)
  {
  }

  /** The latent revealed at an index has the tensors that the transcript lists for the stage of its slot. */
  predicate LaidOutAs(stages: seq<Stage>, latents: map<int, seq<Tensor>>, index: nat)
    requires index < |Layout(stages)|
  {
    LayoutSlot(stages, index);
    index in latents &&
    Specs(Sort(latents[index], ByName)) == Sort(stages[Layout(stages)[index].stage].tensors, SpecByName)
  }

  /** Whatever commitment it is checked against, an accepted opening has a header that holds for it, and the latents around
      the step are laid out as its transcript says. */
  lemma AcceptedHolds(
    commitment: Commitment, opening: Opening, latents: map<int, seq<Tensor>>, jobId: string, step: int, includeLeaves: bool
  )
    requires VerifyOpening(commitment, opening, latents, jobId, step, includeLeaves) == None
    ensures HeaderHolds(commitment, opening, jobId, step)
    ensures var stages := opening.transcript.stages;
            1 <= step < |Layout(stages)| && LaidOutAs(stages, latents, step - 1) && LaidOutAs(stages, latents, step)
  {
    HeaderExactly(commitment, opening, jobId, step);
    LayoutLength(opening.transcript.stages);
    StepLatentsLaidOut(commitment.root, opening.transcript.stages, opening.salt.value, LeavesByIndex(opening.leaves),
                ProofsByIndex(opening.proofs), latents, step, RequiredLeaves(step, commitment.leaves, includeLeaves));
  }

  lemma StepLatentsLaidOut(
    root: LeafDigest, stages: seq<Stage>, salt: bytes, leaves: map<int, StepLeaf>, proofs: map<int, LeafProof>,
    latents: map<int, seq<Tensor>>, step: int, required: seq<int>
  )
    requires 1 <= step < |Layout(stages)| && InRange(required, |Layout(stages)|)
    requires step - 1 in required && step in required
    requires BodyProblem(root, stages, salt, leaves, proofs, latents, step, required) == None
    ensures LaidOutAs(stages, latents, step - 1) && LaidOutAs(stages, latents, step)
  {
    PassedLeavesPresent(root, Layout(stages), salt, leaves, proofs, required);
    LayoutSlot(stages, step - 1);
    LayoutSlot(stages, step);
    LatentExactly(stages[Layout(stages)[step - 1].stage].tensors, leaves[step - 1], latents, step - 1);
    LatentExactly(stages[Layout(stages)[step].stage].tensors, leaves[step], latents, step);
  }

  // ------------------------------------------------------------ soundness

  /** A leaf proved under a committed root is the committed leaf, under the committed salt. */
  lemma ProvenLeafIsCommitted(
    committed: seq<StepLeaf>, committedSalt: bytes, layout: seq<Slot>, salt: bytes, leaves: map<int, StepLeaf>,
    proofs: map<int, LeafProof>, index: int
  )
    requires |layout| == |committed| && 0 <= index < |committed|
    requires LeafProblem(Root(LeafHashes(committed, committedSalt)), layout, salt, leaves, proofs, index) == None
    ensures index in leaves && leaves[index] == committed[index] && salt == committedSalt
  {
    var hashes := LeafHashes(committed, committedSalt);
    RebuildIsExact(hashes, LeafHash(salt, leaves[index]), index, Decoded(proofs[index].path).value);
  }

  lemma {:induction false} RequiredAreCommitted(
    committed: seq<StepLeaf>, committedSalt: bytes, layout: seq<Slot>, salt: bytes, leaves: map<int, StepLeaf>,
    proofs: map<int, LeafProof>, required: seq<int>
  )
    requires |layout| == |committed| > 0 && InRange(required, |layout|)
    requires FirstLeafProblem(Root(LeafHashes(committed, committedSalt)), layout, salt, leaves, proofs, required) == None
    ensures required != [] ==> salt == committedSalt
    ensures forall k :: 0 <= k < |required| ==> required[k] in leaves && leaves[required[k]] == committed[required[k]]
  {
    if required != [] {
      ProvenLeafIsCommitted(committed, committedSalt, layout, salt, leaves, proofs, required[0]);
      var rest := required[1..];
      RequiredAreCommitted(committed, committedSalt, layout, salt, leaves, proofs, rest);
      assert forall k :: 0 < k < |required| ==> required[k] == rest[k - 1];
    }
  }

  lemma AcceptedHeader(
    transcript: Transcript, committed: seq<StepLeaf>, salt: bytes, commitment: Commitment, opening: Opening, jobId: string, step: int
  )
    requires BuildCommitment(transcript, committed, salt) == Success(commitment)
    requires HeaderProblem(commitment, opening, jobId, step) == None
    ensures opening.transcript == transcript && transcript.jobId == jobId && opening.salt.Hex?
    ensures 1 <= step < |committed| == |Layout(transcript.stages)|
    ensures commitment.root == Root(LeafHashes(committed, salt))
  {
  }

  lemma AcceptedLatent(expected: seq<TensorSpec>, leaf: StepLeaf, latents: map<int, seq<Tensor>>, index: int)
    requires LatentProblem(expected, leaf, latents, index) == None
    ensures Digests(leaf, latents, index)
  {
  }

  /** The latent revealed at an index is, in canonical order, what the leaf digests. */
  predicate Digests(leaf: StepLeaf, latents: map<int, seq<Tensor>>, index: int) {
    && index in latents
    && WellFormedState(Sort(latents[index], ByName))
    && leaf.latent == LatentHash(Sort(latents[index], ByName))
  }

  lemma BodyParts(
    root: LeafDigest, stages: seq<Stage>, salt: bytes, leaves: map<int, StepLeaf>, proofs: map<int, LeafProof>,
    latents: map<int, seq<Tensor>>, step: int, required: seq<int>
  )
    requires 1 <= step < |Layout(stages)| && InRange(required, |Layout(stages)|)
    requires step - 1 in required && step in required
    requires BodyProblem(root, stages, salt, leaves, proofs, latents, step, required) == None
    ensures FirstLeafProblem(root, Layout(stages), salt, leaves, proofs, required) == None
    ensures step - 1 in leaves && step in leaves
    ensures Digests(leaves[step - 1], latents, step - 1) && Digests(leaves[step], latents, step)
  {
    PassedLeavesPresent(root, Layout(stages), salt, leaves, proofs, required);
    LayoutSlot(stages, step - 1);
    LayoutSlot(stages, step);
    AcceptedLatent(stages[Layout(stages)[step - 1].stage].tensors, leaves[step - 1], latents, step - 1);
    AcceptedLatent(stages[Layout(stages)[step].stage].tensors, leaves[step], latents, step);
  }

  lemma AcceptedBody(
    stages: seq<Stage>, committed: seq<StepLeaf>, committedSalt: bytes, salt: bytes, leaves: map<int, StepLeaf>,
    proofs: map<int, LeafProof>, latents: map<int, seq<Tensor>>, step: int, required: seq<int>
  )
    requires 1 <= step < |committed| == |Layout(stages)| && InRange(required, |committed|)
    requires step - 1 in required && step in required
    requires BodyProblem(Root(LeafHashes(committed, committedSalt)), stages, salt, leaves, proofs, latents, step, required) == None
    ensures salt == committedSalt
    ensures forall k :: 0 <= k < |required| ==> required[k] in leaves && leaves[required[k]] == committed[required[k]]
    ensures Digests(committed[step - 1], latents, step - 1) && Digests(committed[step], latents, step)
  {
    BodyParts(Root(LeafHashes(committed, committedSalt)), stages, salt, leaves, proofs, latents, step, required);
    RequiredAreCommitted(committed, committedSalt, Layout(stages), salt, leaves, proofs, required);
  }

  /** An accepted opening reveals the committed transcript and salt, every required leaf is the committed one, and the latents
      before and after the step are, in canonical order, what the committed leaves digest. */
  lemma AcceptedOpeningIsCommitted(
    transcript: Transcript, committed: seq<StepLeaf>, salt: bytes, commitment: Commitment,
    opening: Opening, latents: map<int, seq<Tensor>>, jobId: string, step: int, includeLeaves: bool
  )
    requires BuildCommitment(transcript, committed, salt) == Success(commitment)
    requires VerifyOpening(commitment, opening, latents, jobId, step, includeLeaves) == None
    ensures opening.transcript == transcript && transcript.jobId == jobId && opening.salt == Hex(salt)
    ensures 1 <= step < |committed|
    ensures var (required, leaves) := (RequiredLeaves(step, |committed|, includeLeaves), LeavesByIndex(opening.leaves));
            forall k :: 0 <= k < |required| ==> required[k] in leaves && leaves[required[k]] == committed[required[k]]
    ensures Digests(committed[step - 1], latents, step - 1) && Digests(committed[step], latents, step)
  {
    assert HeaderProblem(commitment, opening, jobId, step) == None;
    AcceptedHeader(transcript, committed, salt, commitment, opening, jobId, step);
    AcceptedBody(transcript.stages, committed, salt, opening.salt.value, LeavesByIndex(opening.leaves), ProofsByIndex(opening.proofs),
                 latents, step, RequiredLeaves(step, |committed|, includeLeaves));
  }
}
