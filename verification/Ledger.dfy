/**
  Auditing the gateway's ledger before an entry is paid: each job id at most once, each output at most once.

  Signatures are ideal (a receipt names the key that signed it) and a params digest is its params.
 */
module Ledger {
  import opened Wrappers
  import opened Sorting
  import PlanFit
  import Sums

  const DURATION_SLACK_S := 0.5
  const PLAN_MAX_GPU_SECONDS := 300.0

  datatype Mode = Clip | Storyboard | Plan

  datatype Params = Params(profileId: string, durationS: real, fps: Option<nat>, mode: Mode, hasShots: bool)

  datatype Digest = OfParams(params: Params) | OtherDigest(hex: string)

  datatype Output = VideoInfo(durationS: real) | PlanInfo(shots: int, durationS: real)

  datatype Body = Body(
    enclaveId: string, jobId: string, profileId: string, minerHotkey: Option<string>, paramsDigest: Digest,
    contentDigest: string, gpuSeconds: real, output: Output
  )

  datatype Receipt = MalformedReceipt | Receipt(body: Body, signer: string)

  datatype ParamsField = MalformedParams | FullParams(params: Params)

  datatype Row = Row(
    jobId: Option<string>, succeeded: bool, finishedAt: Option<real>, profileId: string, enclaveId: Option<string>,
    receipt: Option<Receipt>, params: Option<ParamsField>, durationS: Option<real>
  )

  datatype EnclaveKey = EnclaveKey(minerHotkey: Option<string>, signingKey: string)

  datatype Board = Board(maxShots: int, maxTotalS: real)

  datatype Profile = Profile(defaultFps: nat, numFrames: (real, nat) -> int, board: Option<Board>, makesPlans: bool)

  datatype Reason =
    | DuplicateRow | NoReceipt | BadReceipt | UnknownEnclave | BadSignature | Mismatch | WrongHotkey | UnknownProfile
    | BadParams | ParamsDigestMismatch | WrongOutput | NoDuration

  datatype Flag = LengthOff(jobId: string) | PlanOff(jobId: string) | OwnRepeat(jobId: string, original: string)

  datatype Penalty = Replayed(original: string, jobId: string)

  /** A succeeded row whose receipt verified. */
  datatype Delivery = Delivery(
    row: Row, jobId: string, hotkey: string, digest: string, billableS: real, plan: bool, credit: bool, flag: Option<Flag>,
    unbound: bool, replayOf: Option<string>
  )

  // ------------------------------------------------------------ one row

  predicate ValidProfile(profile: Profile) {
    profile.defaultFps > 0
  }

  function DurationBounds(profile: Profile, durationS: real, fps: Option<nat>, storyboard: bool): (real, real)
    requires ValidProfile(profile)
  {
    if storyboard then (durationS - DURATION_SLACK_S, durationS + DURATION_SLACK_S)
    else
      var rate := if fps.Some? && fps.value > 0 then fps.value else profile.defaultFps;
      var rendered := profile.numFrames(durationS, rate) as real / rate as real;
      (durationS - DURATION_SLACK_S, Sums.Max(durationS, rendered) + DURATION_SLACK_S)
  }

  predicate IsStoryboard(params: Params) {
    params.mode == Storyboard || params.hasShots
  }

  /** A plan receipt's own numbers can be credited. */
  predicate PlanCreditable(profile: Profile, info: Output, gpuSeconds: real) {
    && 0.0 < gpuSeconds <= PLAN_MAX_GPU_SECONDS
    && profile.board.Some? && profile.makesPlans && info.PlanInfo?
    && 2 <= info.shots <= profile.board.value.maxShots
    && 0.0 < info.durationS <= profile.board.value.maxTotalS + 0.000001
  }

  /** The requested length, the frame rate, whether it is a storyboard, and whether the gateway alone vouches for it. */
  function Requested(row: Row, body: Body): Result<(real, Option<nat>, bool, bool), Reason> {
    match row.params
    case Some(MalformedParams) => Failure(BadParams)
    case Some(FullParams(params)) =>
      if OfParams(params) != body.paramsDigest then Failure(ParamsDigestMismatch)
      else if params.profileId != body.profileId then Failure(Mismatch)
      else if (params.mode == Plan) != body.output.PlanInfo? then Failure(WrongOutput)
      else Success((params.durationS, params.fps, IsStoryboard(params), false))
    case None =>
      if row.durationS.Some? then Success((row.durationS.value, None, false, true)) else Failure(NoDuration)
  }

  function CheckReceipt(row: Row, keys: map<string, EnclaveKey>): Result<(Body, string), Reason> {
    if row.receipt.None? then Failure(NoReceipt)
    else if row.receipt.value.MalformedReceipt? then Failure(BadReceipt)
    else
      var body := row.receipt.value.body;
      if body.enclaveId !in keys then Failure(UnknownEnclave)
      else
        var key := keys[body.enclaveId];
        if row.receipt.value.signer != key.signingKey then Failure(BadSignature)
        else if Some(body.jobId) != row.jobId || body.profileId != row.profileId
                || (row.enclaveId.Some? && body.enclaveId != row.enclaveId.value) then Failure(Mismatch)
        else if key.minerHotkey.None? || (body.minerHotkey.Some? && body.minerHotkey != key.minerHotkey) then Failure(WrongHotkey)
        else Success((body, key.minerHotkey.value))
  }

  predicate ValidProfiles(profiles: map<string, Profile>) {
    forall id :: id in profiles ==> ValidProfile(profiles[id])
  }

  function VerifyEntry(row: Row, keys: map<string, EnclaveKey>, profiles: map<string, Profile>): Result<Delivery, Reason>
    requires ValidProfiles(profiles)
  {
    var (body, hotkey) :- CheckReceipt(row, keys);
    if body.profileId !in profiles then Failure(UnknownProfile)
    else
      var profile := profiles[body.profileId];
      var (requested, fps, storyboard, unbound) :- Requested(row, body);
      if body.output.PlanInfo? then
        var ok := PlanCreditable(profile, body.output, body.gpuSeconds);
        Success(Delivery(row, body.jobId, hotkey, body.contentDigest, 0.0, true, ok,
                         if ok then None else Some(PlanOff(body.jobId)), unbound, None))
      else
        var (low, high) := DurationBounds(profile, requested, fps, storyboard);
        var ok := low <= body.output.durationS <= high;
        Success(Delivery(row, body.jobId, hotkey, body.contentDigest, requested, false, ok,
                         if ok then None else Some(LengthOff(body.jobId)), unbound, None))
  }

  // ------------------------------------------------------------ what a row must show

  /** The job's request is usable: full params are the ones signed, for the receipt's profile and kind of output, and without
      params the gateway's row gives a length. */
  predicate UsableRequest(row: Row, body: Body) {
    match row.params
    case None => row.durationS.Some?
    case Some(MalformedParams) => false
    case Some(FullParams(params)) =>
      && body.paramsDigest == OfParams(params) && params.profileId == body.profileId
      && (params.mode == Plan <==> body.output.PlanInfo?)
  }

  predicate HasReceipt(row: Row) {
    row.receipt.Some? && row.receipt.value.Receipt?
  }

  /** The receipt is signed with the key of an enclave that is known, registered by a miner, and the one that the row and the
      receipt name, for the row's job and a known profile. */
  predicate Genuine(row: Row, keys: map<string, EnclaveKey>, profiles: map<string, Profile>) {
    HasReceipt(row) &&
    var body := row.receipt.value.body;
    && body.enclaveId in keys && row.receipt.value.signer == keys[body.enclaveId].signingKey
    && row.jobId == Some(body.jobId) && row.profileId == body.profileId && body.profileId in profiles
    && (row.enclaveId == None || row.enclaveId == Some(body.enclaveId))
    && keys[body.enclaveId].minerHotkey != None
    && (body.minerHotkey == None || body.minerHotkey == keys[body.enclaveId].minerHotkey)
    && UsableRequest(row, body)
  }

  /** The length the job asked for. */
  function RequestedS(row: Row): real {
    match row.params
    case Some(FullParams(params)) => params.durationS
    case _ => if row.durationS.Some? then row.durationS.value else 0.0
  }

  predicate AsksStoryboard(row: Row) {
    row.params.Some? && row.params.value.FullParams? &&
    (row.params.value.params.mode == Storyboard || row.params.value.params.hasShots)
  }

  function RateOf(row: Row, profile: Profile): nat {
    match row.params
    case Some(FullParams(params)) =>
      if params.fps.Some? && params.fps.value > 0 then params.fps.value else profile.defaultFps
    case _ => profile.defaultFps
  }

  /** A reported length is at most half a second below what was asked for, and at most half a second above it or, but for a
      storyboard, above what the profile renders for it. */
  predicate LengthFits(row: Row, profile: Profile, reported: real)
    requires ValidProfile(profile)
  {
    var (requested, rate) := (RequestedS(row), RateOf(row, profile));
    && requested - reported <= 0.5
    && (reported - requested <= 0.5
        || (!AsksStoryboard(row) && reported - profile.numFrames(requested, rate) as real / rate as real <= 0.5))
  }

  /** A plan's numbers: at most five minutes of GPU time, and a shot count and length that a plan of the profile can have. */
  predicate PlanFits(profile: Profile, shots: int, lengthS: real, gpuSeconds: real) {
    && profile.makesPlans && profile.board.Some? && 2 <= shots <= profile.board.value.maxShots
    && 0.0 < lengthS && lengthS - profile.board.value.maxTotalS <= 0.000001 && 0.0 < gpuSeconds && gpuSeconds <= 300.0
  }

  /** The row's own numbers earn credit. */
  predicate Earned(row: Row, profiles: map<string, Profile>)
    requires ValidProfiles(profiles)
  {
    HasReceipt(row) && row.receipt.value.body.profileId in profiles &&
    var (body, profile) := (row.receipt.value.body, profiles[row.receipt.value.body.profileId]);
    match body.output
    case VideoInfo(reported) => LengthFits(row, profile, reported)
    case PlanInfo(shots, lengthS) => PlanFits(profile, shots, lengthS, body.gpuSeconds)
  }

  /** A succeeded row is accepted exactly when it is genuine. */
  lemma EntryVerifies(row: Row, keys: map<string, EnclaveKey>, profiles: map<string, Profile>)
    requires ValidProfiles(profiles)
    ensures VerifyEntry(row, keys, profiles).Success? <==> Genuine(row, keys, profiles)
  {
  }

  lemma VideoCredit(row: Row, body: Body, profile: Profile)
    requires ValidProfile(profile) && Requested(row, body).Success? && body.output.VideoInfo?
    ensures var (requested, fps, storyboard, unbound) := Requested(row, body).value;
            var (low, high) := DurationBounds(profile, requested, fps, storyboard);
            && requested == RequestedS(row) && unbound == row.params.None?
            && (low <= body.output.durationS <= high <==> LengthFits(row, profile, body.output.durationS))
  {
  }

  /** What is accepted of it: the job, the miner whose enclave signed, the output, a bill of the length asked for and none for
      a plan, credit exactly when its own numbers earn it, and a flag exactly when they do not. */
  lemma EntryExactly(row: Row, keys: map<string, EnclaveKey>, profiles: map<string, Profile>, d: Delivery)
    requires ValidProfiles(profiles) && VerifyEntry(row, keys, profiles) == Success(d)
    ensures Genuine(row, keys, profiles) && d.row == row && d.replayOf == None
    ensures var body := row.receipt.value.body;
            && d.jobId == body.jobId && d.digest == body.contentDigest && keys[body.enclaveId].minerHotkey == Some(d.hotkey)
            && d.plan == body.output.PlanInfo? && d.unbound == row.params.None?
            && d.billableS == (if body.output.PlanInfo? then 0.0 else RequestedS(row))
            && d.flag == (if d.credit then None else if d.plan then Some(PlanOff(body.jobId)) else Some(LengthOff(body.jobId)))
    ensures d.credit <==> Earned(row, profiles)
  {
    EntryVerifies(row, keys, profiles);
    var body := row.receipt.value.body;
    if body.output.VideoInfo? { VideoCredit(row, body, profiles[body.profileId]); }
  }

  /** The reason a row is dropped for is one it gives. */
  lemma DropReason(row: Row, keys: map<string, EnclaveKey>, profiles: map<string, Profile>, reason: Reason)
    requires ValidProfiles(profiles) && VerifyEntry(row, keys, profiles) == Failure(reason)
    ensures reason == NoReceipt <==> row.receipt == None
    ensures reason == BadReceipt <==> row.receipt == Some(MalformedReceipt)
    ensures HasReceipt(row) ==>
              var (body, signer) := (row.receipt.value.body, row.receipt.value.signer);
              && (reason == UnknownEnclave <==> body.enclaveId !in keys)
              && (reason == BadSignature <==> body.enclaveId in keys && signer != keys[body.enclaveId].signingKey)
              && (reason == UnknownProfile ==> body.profileId !in profiles)
              && (reason == BadParams ==> row.params == Some(MalformedParams))
              && (reason == NoDuration ==> row.params == None && row.durationS == None)
              && (reason == ParamsDigestMismatch ==>
                  row.params.Some? && row.params.value.FullParams? && body.paramsDigest != OfParams(row.params.value.params))
    ensures reason != DuplicateRow
  {
  }

  // ------------------------------------------------------------ the ledger

  function At(finishedAt: Option<real>): real {
    if finishedAt.Some? then finishedAt.value else 0.0
  }

  function KeyLeq(at: real, id: string, at': real, id': string): bool {
    at < at' || (at == at' && StringLeq(id, id'))
  }

  /** Order of delivery: by finish time, then job id. */
  function DeliveryOrder(): (Delivery, Delivery) -> bool {
    (a: Delivery, b: Delivery) => KeyLeq(At(a.row.finishedAt), a.jobId, At(b.row.finishedAt), b.jobId)
  }

  function Ids(ledger: seq<Row>): set<string> {
    set i | 0 <= i < |ledger| && ledger[i].jobId.Some? :: ledger[i].jobId.value
  }

  predicate Repeated(ledger: seq<Row>, row: Row) {
    row.jobId.Some? && exists i :: 0 <= i < |ledger| && ledger[i].jobId == row.jobId
  }

  /** The rows of jobs that failed, passed through. */
  function Failed(ledger: seq<Row>): seq<Row> {
    if ledger == [] then []
    else
      var (front, row) := (ledger[..|ledger| - 1], ledger[|ledger| - 1]);
      if Repeated(front, row) || row.succeeded then Failed(front) else Failed(front) + [row]
  }

  function Deliveries(ledger: seq<Row>, keys: map<string, EnclaveKey>, profiles: map<string, Profile>): seq<Delivery>
    requires ValidProfiles(profiles)
  {
    if ledger == [] then []
    else
      var (front, row) := (ledger[..|ledger| - 1], ledger[|ledger| - 1]);
      var found := Deliveries(front, keys, profiles);
      if Repeated(front, row) || !row.succeeded || VerifyEntry(row, keys, profiles).Failure? then found
      else found + [VerifyEntry(row, keys, profiles).value]
  }

  /** The deliveries of a ledger in order. */
  function Delivered(ledger: seq<Row>, keys: map<string, EnclaveKey>, profiles: map<string, Profile>): seq<Delivery>
    requires ValidProfiles(profiles)
  {
    Sort(Deliveries(ledger, keys, profiles), DeliveryOrder())
  }

  function Dropped(ledger: seq<Row>, keys: map<string, EnclaveKey>, profiles: map<string, Profile>, reason: Reason): nat
    requires ValidProfiles(profiles)
  {
    if ledger == [] then 0
    else
      var (front, row) := (ledger[..|ledger| - 1], ledger[|ledger| - 1]);
      var before := Dropped(front, keys, profiles, reason);
      if Repeated(front, row) then before + (if reason == DuplicateRow then 1 else 0)
      else if row.succeeded && VerifyEntry(row, keys, profiles) == Failure(reason) then before + 1
      else before
  }

  // ------------------------------------------------------------ what a claimed length can change

  predicate ClaimsLength(row: Row) {
    row.receipt.Some? && row.receipt.value.Receipt? && row.receipt.value.body.output.VideoInfo?
  }

  /** The same row, but for the length claimed on a video receipt, which is signed by the same key. */
  predicate OnlyClaimDiffers(a: Row, b: Row) {
    a == b || (ClaimsLength(a) && ClaimsLength(b) &&
               b == a.(receipt := Some(a.receipt.value.(body := a.receipt.value.body.(output := b.receipt.value.body.output)))))
  }

  /** The same job for the same miner, output and bill. */
  predicate SameBill(a: Delivery, b: Delivery) {
    a.jobId == b.jobId && a.hotkey == b.hotkey && a.digest == b.digest && a.billableS == b.billableS && a.plan == b.plan
  }

  predicate SameOutcome(x: Result<Delivery, Reason>, y: Result<Delivery, Reason>) {
    if x.Failure? then y == x else y.Success? && SameBill(x.value, y.value)
  }

  lemma EntryIgnoresClaim(a: Row, b: Row, keys: map<string, EnclaveKey>, profiles: map<string, Profile>)
    requires ValidProfiles(profiles) && OnlyClaimDiffers(a, b)
    ensures SameOutcome(VerifyEntry(a, keys, profiles), VerifyEntry(b, keys, profiles))
  {
    var (x, y) := (CheckReceipt(a, keys), CheckReceipt(b, keys));
    assert x.Failure? ==> x == y;
    if x.Success? {
      assert Requested(a, x.value.0) == Requested(b, y.value.0);
    }
  }

  predicate OnlyClaimsDiffer(ledger: seq<Row>, other: seq<Row>) {
    |ledger| == |other| && forall i :: 0 <= i < |ledger| ==> OnlyClaimDiffers(ledger[i], other[i])
  }

  predicate SameBills(a: seq<Delivery>, b: seq<Delivery>) {
    |a| == |b| && forall k :: 0 <= k < |a| ==> SameBill(a[k], b[k])
  }

  lemma RepeatedAlike(front: seq<Row>, other: seq<Row>, a: Row, b: Row)
    requires OnlyClaimsDiffer(front, other) && OnlyClaimDiffers(a, b)
    ensures (Repeated(front, a) <==> Repeated(other, b)) && a.succeeded == b.succeeded
  {
    forall i | 0 <= i < |front| ensures front[i].jobId == other[i].jobId {
      assert OnlyClaimDiffers(front[i], other[i]);
    }
  }

  function WithOutcome(found: seq<Delivery>, skip: bool, outcome: Result<Delivery, Reason>): seq<Delivery> {
    if skip || outcome.Failure? then found else found + [outcome.value]
  }

  lemma DeliveriesSnoc(front: seq<Row>, row: Row, keys: map<string, EnclaveKey>, profiles: map<string, Profile>)
    requires ValidProfiles(profiles)
    ensures Deliveries(front + [row], keys, profiles)
            == WithOutcome(Deliveries(front, keys, profiles), Repeated(front, row) || !row.succeeded, VerifyEntry(row, keys, profiles))
  {
    assert (front + [row])[..|front|] == front;
  }

  function DropsNow(repeated: bool, succeeded: bool, outcome: Result<Delivery, Reason>, reason: Reason): nat {
    if repeated then (if reason == DuplicateRow then 1 else 0)
    else if succeeded && outcome == Failure(reason) then 1
    else 0
  }

  lemma DroppedSnoc(front: seq<Row>, row: Row, keys: map<string, EnclaveKey>, profiles: map<string, Profile>, reason: Reason)
    requires ValidProfiles(profiles)
    ensures Dropped(front + [row], keys, profiles, reason)
            == Dropped(front, keys, profiles, reason)
               + DropsNow(Repeated(front, row), row.succeeded, VerifyEntry(row, keys, profiles), reason)
  {
    assert (front + [row])[..|front|] == front;
  }

  lemma OutcomesAlike(
    found: seq<Delivery>, found': seq<Delivery>, skip: bool, x: Result<Delivery, Reason>, y: Result<Delivery, Reason>
  )
    requires SameBills(found, found') && SameOutcome(x, y)
    ensures SameBills(WithOutcome(found, skip, x), WithOutcome(found', skip, y))
  {
  }

  lemma BillStep(
    front: seq<Row>, front': seq<Row>, a: Row, b: Row, keys: map<string, EnclaveKey>, profiles: map<string, Profile>
  )
    requires ValidProfiles(profiles) && SameOutcome(VerifyEntry(a, keys, profiles), VerifyEntry(b, keys, profiles))
    requires (Repeated(front, a) <==> Repeated(front', b)) && a.succeeded == b.succeeded
    requires SameBills(Deliveries(front, keys, profiles), Deliveries(front', keys, profiles))
    ensures SameBills(Deliveries(front + [a], keys, profiles), Deliveries(front' + [b], keys, profiles))
  {
    DeliveriesSnoc(front, a, keys, profiles);
    DeliveriesSnoc(front', b, keys, profiles);
    OutcomesAlike(Deliveries(front, keys, profiles), Deliveries(front', keys, profiles), Repeated(front, a) || !a.succeeded,
                  VerifyEntry(a, keys, profiles), VerifyEntry(b, keys, profiles));
  }

  lemma DropsAlike(repeated: bool, succeeded: bool, x: Result<Delivery, Reason>, y: Result<Delivery, Reason>, reason: Reason)
    requires SameOutcome(x, y)
    ensures DropsNow(repeated, succeeded, x, reason) == DropsNow(repeated, succeeded, y, reason)
  {
  }

  lemma DropStep(
    front: seq<Row>, front': seq<Row>, a: Row, b: Row, keys: map<string, EnclaveKey>, profiles: map<string, Profile>, reason: Reason
  )
    requires ValidProfiles(profiles) && SameOutcome(VerifyEntry(a, keys, profiles), VerifyEntry(b, keys, profiles))
    requires (Repeated(front, a) <==> Repeated(front', b)) && a.succeeded == b.succeeded
    requires Dropped(front, keys, profiles, reason) == Dropped(front', keys, profiles, reason)
    ensures Dropped(front + [a], keys, profiles, reason) == Dropped(front' + [b], keys, profiles, reason)
  {
    DroppedSnoc(front, a, keys, profiles, reason);
    DroppedSnoc(front', b, keys, profiles, reason);
    DropsAlike(Repeated(front, a), a.succeeded, VerifyEntry(a, keys, profiles), VerifyEntry(b, keys, profiles), reason);
  }

  /** What is billed never comes from a miner's own length: whatever lengths are claimed, the same rows verify, the others are
      dropped for the same reasons, and every delivery pays the same miner for the same seconds. */
  lemma {:induction false} BilledIgnoresClaims(
    ledger: seq<Row>, other: seq<Row>, keys: map<string, EnclaveKey>, profiles: map<string, Profile>, reason: Reason
  )
    requires ValidProfiles(profiles) && OnlyClaimsDiffer(ledger, other)
    ensures SameBills(Deliveries(ledger, keys, profiles), Deliveries(other, keys, profiles))
    ensures Dropped(ledger, keys, profiles, reason) == Dropped(other, keys, profiles, reason)
  {
    if ledger != [] {
      var (front, front', a, b) := (ledger[..|ledger| - 1], other[..|other| - 1], ledger[|ledger| - 1], other[|other| - 1]);
      assert ledger == front + [a] && other == front' + [b];
      assert OnlyClaimsDiffer(front, front');
      assert (Repeated(front, a) <==> Repeated(front', b)) && a.succeeded == b.succeeded by { RepeatedAlike(front, front', a, b); }
      assert SameOutcome(VerifyEntry(a, keys, profiles), VerifyEntry(b, keys, profiles)) by {
        EntryIgnoresClaim(a, b, keys, profiles);
      }
      BilledIgnoresClaims(front, front', keys, profiles, reason);
      BillStep(front, front', a, b, keys, profiles);
      DropStep(front, front', a, b, keys, profiles, reason);
    }
  }

  // ------------------------------------------------------------ replays

  /** The first delivery of a digest. */
  function First(s: seq<Delivery>, digest: string): Option<Delivery> {
    if s == [] then None
    else
      var found := First(s[..|s| - 1], digest);
      if found.Some? then found
      else if s[|s| - 1].digest == digest then Some(s[|s| - 1])
      else None
  }

  /** What becomes of the last delivery, after the others. */
  function MarkedLast(front: seq<Delivery>, d: Delivery): Delivery {
    var original := First(front, d.digest);
    if original.None? then d.(flag := None) else d.(flag := None, credit := false, replayOf := Some(original.value.jobId))
  }

  function Penalties(s: seq<Delivery>, hotkey: string): seq<Penalty> {
    if s == [] then []
    else
      var (front, d) := (s[..|s| - 1], s[|s| - 1]);
      var (before, original) := (Penalties(front, hotkey), First(front, d.digest));
      if d.hotkey == hotkey && original.Some? && original.value.hotkey != hotkey
        then before + [Replayed(original.value.jobId, d.jobId)]
        else before
  }

  function WithOwnFlag(before: seq<Flag>, d: Delivery, hotkey: string): seq<Flag> {
    if d.hotkey == hotkey && d.flag.Some? then before + [d.flag.value] else before
  }

  function Flags(s: seq<Delivery>, hotkey: string): seq<Flag> {
    if s == [] then []
    else
      var (front, d) := (s[..|s| - 1], s[|s| - 1]);
      var (before, original) := (WithOwnFlag(Flags(front, hotkey), d, hotkey), First(front, d.digest));
      if d.hotkey == hotkey && original.Some? && original.value.hotkey == hotkey
        then before + [OwnRepeat(d.jobId, original.value.jobId)]
        else before
  }

  function Listed<T>(lists: map<string, seq<T>>, key: string): seq<T> {
    if key in lists then lists[key] else []
  }

  function Appended<T>(lists: map<string, seq<T>>, key: string, item: T): map<string, seq<T>> {
    lists[key := Listed(lists, key) + [item]]
  }

  function SameJob(): (Delivery, Delivery) -> bool {
    (a: Delivery, b: Delivery) => a.jobId == b.jobId
  }

  ghost predicate FirstsAre(first: map<string, Delivery>, s: seq<Delivery>) {
    forall digest :: First(s, digest) == if digest in first then Some(first[digest]) else None
  }

  ghost predicate FlagsAre(flags: map<string, seq<Flag>>, s: seq<Delivery>) {
    forall hotkey :: Listed(flags, hotkey) == Flags(s, hotkey)
  }

  ghost predicate PenaltiesAre(penalties: map<string, seq<Penalty>>, s: seq<Delivery>) {
    forall hotkey :: Listed(penalties, hotkey) == Penalties(s, hotkey)
  }

  /** The entries of the first n deliveries are marked. */
  ghost predicate EntriesAre(entries: map<string, Delivery>, s: seq<Delivery>, n: nat)
    requires n <= |s|
  {
    forall i :: 0 <= i < n ==> s[i].jobId in entries && entries[s[i].jobId] == MarkedLast(s[..i], s[i])
  }

  /** Marks replays in order of delivery, in the entries of the given jobs; `flags` and `penalties` grow per miner. */
  method MarkReplays(verified: seq<Delivery>)
    returns (entries: map<string, Delivery>, flags: map<string, seq<Flag>>, penalties: map<string, seq<Penalty>>)
    requires Apart(verified, SameJob())
    ensures EntriesAre(entries, Sort(verified, DeliveryOrder()), |Sort(verified, DeliveryOrder())|)
    ensures FlagsAre(flags, Sort(verified, DeliveryOrder()))
    ensures PenaltiesAre(penalties, Sort(verified, DeliveryOrder()))
  {
    var s := Sort(verified, DeliveryOrder());
    SortApart(verified, DeliveryOrder(), SameJob());
    entries, flags, penalties := map[], map[], map[];
    var first: map<string, Delivery> := map[];
    for i := 0 to |s|
      invariant EntriesAre(entries, s, i) && FirstsAre(first, s[..i])
      invariant FlagsAre(flags, s[..i]) && PenaltiesAre(penalties, s[..i])
    {
      var marked;
      marked, first, flags, penalties := MarkOne(s[..i], s[i], first, flags, penalties);
      EntriesStep(entries, s, i, marked);
      entries := entries[s[i].jobId := marked];
      assert s[..i + 1] == s[..i] + [s[i]];
    }
    assert s[..|s|] == s;
  }

  lemma EntriesStep(entries: map<string, Delivery>, s: seq<Delivery>, i: nat, marked: Delivery)
    requires i < |s| && Apart(s, SameJob()) && EntriesAre(entries, s, i) && marked == MarkedLast(s[..i], s[i])
    ensures EntriesAre(entries[s[i].jobId := marked], s, i + 1)
  {
  }

  method MarkOne(
    ghost front: seq<Delivery>, entry: Delivery, first: map<string, Delivery>,
    flags: map<string, seq<Flag>>, penalties: map<string, seq<Penalty>>
  )
    returns (
      marked: Delivery, first': map<string, Delivery>, flags': map<string, seq<Flag>>, penalties': map<string, seq<Penalty>>
    )
    requires FirstsAre(first, front) && FlagsAre(flags, front) && PenaltiesAre(penalties, front)
    ensures marked == MarkedLast(front, entry)
    ensures FirstsAre(first', front + [entry])
    ensures FlagsAre(flags', front + [entry]) && PenaltiesAre(penalties', front + [entry])
  {
    first', flags', penalties' := first, flags, penalties;
    if entry.flag.Some? {
      flags' := Appended(flags', entry.hotkey, entry.flag.value);
    }
    ghost var flagged := flags';
    assert forall hotkey :: Listed(flagged, hotkey) == WithOwnFlag(Flags(front, hotkey), entry, hotkey);
    marked := entry.(flag := None);
    assert First(front, entry.digest) == if entry.digest in first then Some(first[entry.digest]) else None;
    FirstsStep(first, front, entry);
    if entry.digest !in first {
      first' := first[entry.digest := entry];
    } else {
      var original := first[entry.digest];
      marked := marked.(credit := false, replayOf := Some(original.jobId));
      if original.hotkey != entry.hotkey {
        penalties' := Appended(penalties', entry.hotkey, Replayed(original.jobId, entry.jobId));
      } else {
        flags' := Appended(flags', entry.hotkey, OwnRepeat(entry.jobId, original.jobId));
      }
    }
    FlagsStep(flagged, flags', front, entry);
    PenaltiesStep(penalties, penalties', front, entry);
  }

  lemma FlagsStep(flagged: map<string, seq<Flag>>, after: map<string, seq<Flag>>, front: seq<Delivery>, d: Delivery)
    requires forall hotkey :: Listed(flagged, hotkey) == WithOwnFlag(Flags(front, hotkey), d, hotkey)
    requires var original := First(front, d.digest);
             after == if original.Some? && original.value.hotkey == d.hotkey
                      then Appended(flagged, d.hotkey, OwnRepeat(d.jobId, original.value.jobId))
                      else flagged
    ensures FlagsAre(after, front + [d])
  {
    Extended(front, d);
  }

  lemma PenaltiesStep(
    penalties: map<string, seq<Penalty>>, after: map<string, seq<Penalty>>, front: seq<Delivery>, d: Delivery
  )
    requires PenaltiesAre(penalties, front)
    requires var original := First(front, d.digest);
             after == if original.Some? && original.value.hotkey != d.hotkey
                      then Appended(penalties, d.hotkey, Replayed(original.value.jobId, d.jobId))
                      else penalties
    ensures PenaltiesAre(after, front + [d])
  {
    Extended(front, d);
  }

  lemma Extended(front: seq<Delivery>, d: Delivery)
    ensures (front + [d])[..|front + [d]| - 1] == front && (front + [d])[|front + [d]| - 1] == d
  {
  }

  lemma FirstsStep(first: map<string, Delivery>, front: seq<Delivery>, d: Delivery)
    requires FirstsAre(first, front)
    ensures FirstsAre(if d.digest in first then first else first[d.digest := d], front + [d])
  {
    assert (front + [d])[..|front|] == front;
  }

  /** The first delivery of a digest among the first n. */
  lemma {:induction false} FirstFound(s: seq<Delivery>, n: nat, digest: string)
    requires n <= |s|
    ensures First(s[..n], digest).None? <==> forall i :: 0 <= i < n ==> s[i].digest != digest
    ensures First(s[..n], digest).Some? ==>
              exists i :: 0 <= i < n && First(s[..n], digest) == Some(s[i]) && s[i].digest == digest && NoneBefore(s, i)
  {
    if n > 0 {
      FirstFound(s, n - 1, digest);
      assert s[..n][..n - 1] == s[..n - 1];
    }
  }

  /** No delivery before this one has its digest. */
  predicate NoneBefore(s: seq<Delivery>, i: int)
    requires 0 <= i < |s|
  {
    forall j :: 0 <= j < i ==> s[j].digest != s[i].digest
  }

  /** No delivery of the same output comes before this one. */
  predicate IsOriginal(verified: seq<Delivery>, d: Delivery) {
    forall e :: e in verified && e.digest == d.digest ==> DeliveryOrder()(d, e)
  }

  lemma DeliveriesOrdered()
    ensures Ordering(DeliveryOrder())
  {
    forall a: Delivery, b: Delivery ensures DeliveryOrder()(a, b) || DeliveryOrder()(b, a) {
      StringLeqTotal(a.jobId, b.jobId);
    }
    forall a: Delivery, b: Delivery, c: Delivery | DeliveryOrder()(a, b) && DeliveryOrder()(b, c) ensures DeliveryOrder()(a, c) {
      if StringLeq(a.jobId, b.jobId) && StringLeq(b.jobId, c.jobId) {
        StringLeqTransitive(a.jobId, b.jobId, c.jobId);
      }
    }
  }

  /** The deliveries in order: the same ones, no job twice. */
  ghost predicate InOrder(s: seq<Delivery>, verified: seq<Delivery>) {
    && s == Sort(verified, DeliveryOrder()) && Sorted(s, DeliveryOrder()) && Apart(s, SameJob())
    && |s| == |verified| && forall e :: e in verified <==> e in s
  }

  lemma SortedInOrder(verified: seq<Delivery>)
    requires Apart(verified, SameJob())
    ensures InOrder(Sort(verified, DeliveryOrder()), verified)
  {
    var s := Sort(verified, DeliveryOrder());
    DeliveriesOrdered();
    SortSorted(verified, DeliveryOrder());
    SortApart(verified, DeliveryOrder(), SameJob());
    SortKeepsElements(verified, DeliveryOrder());
    assert forall e :: (e in verified <==> e in multiset(verified)) && (e in s <==> e in multiset(s));
  }

  /** In order of delivery, the original of an output is the one that none before it matches. */
  lemma OriginalIsFirst(s: seq<Delivery>, verified: seq<Delivery>, i: nat)
    requires InOrder(s, verified) && i < |s|
    ensures IsOriginal(verified, s[i]) <==> NoneBefore(s, i)
  {
    if NoneBefore(s, i) {
      forall e | e in verified && e.digest == s[i].digest ensures DeliveryOrder()(s[i], e) {
        var j :| 0 <= j < |s| && s[j] == e;
        StringLeqTotal(e.jobId, e.jobId);
      }
    } else {
      var j :| 0 <= j < i && s[j].digest == s[i].digest;
      assert s[j] in verified && DeliveryOrder()(s[j], s[i]) && !SameJob()(s[j], s[i]);
      StringLeqTotal(s[i].jobId, s[j].jobId);
    }
  }

  lemma MarkedCredit(s: seq<Delivery>, verified: seq<Delivery>, i: nat)
    requires InOrder(s, verified) && i < |s|
    ensures MarkedLast(s[..i], s[i]).credit <==> s[i].credit && IsOriginal(verified, s[i])
  {
    OriginalIsFirst(s, verified, i);
    FirstFound(s, i, s[i].digest);
  }

  lemma MarkedCreditOnce(s: seq<Delivery>, verified: seq<Delivery>, i: nat, j: nat)
    requires InOrder(s, verified) && i < |s| && j < |s| && s[i].digest == s[j].digest
    requires MarkedLast(s[..i], s[i]).credit && MarkedLast(s[..j], s[j]).credit
    ensures i == j
  {
    FirstFound(s, i, s[i].digest);
    FirstFound(s, j, s[j].digest);
  }

  /** The i-th delivery repeats an output first delivered by another miner. */
  predicate Copies(s: seq<Delivery>, i: int, hotkey: string)
    requires 0 <= i < |s|
  {
    var original := First(s[..i], s[i].digest);
    s[i].hotkey == hotkey && original.Some? && original.value.hotkey != hotkey
  }

  lemma {:induction false} PenaltiesFound(s: seq<Delivery>, n: nat, hotkey: string)
    requires n <= |s|
    ensures Penalties(s[..n], hotkey) != [] <==> exists i :: 0 <= i < n && Copies(s, i, hotkey)
  {
    if n > 0 {
      PenaltiesFound(s, n - 1, hotkey);
      assert s[..n][..n - 1] == s[..n - 1];
      assert Copies(s, n - 1, hotkey) || !Copies(s, n - 1, hotkey);
    }
  }

  /** The miner delivered an output whose original is another miner's. */
  predicate Copied(verified: seq<Delivery>, hotkey: string, d: Delivery, o: Delivery) {
    && d in verified && o in verified && d.digest == o.digest && IsOriginal(verified, o)
    && d.hotkey == hotkey && o.hotkey != hotkey
  }

  lemma PenalisedCopier(s: seq<Delivery>, verified: seq<Delivery>, hotkey: string)
    requires InOrder(s, verified)
    ensures Penalties(s, hotkey) != [] <==> exists d, o :: Copied(verified, hotkey, d, o)
  {
    assert Penalties(s, hotkey) != [] <==> exists i :: 0 <= i < |s| && Copies(s, i, hotkey) by {
      PenaltiesFound(s, |s|, hotkey);
      assert s[..|s|] == s;
    }
    if i :| 0 <= i < |s| && Copies(s, i, hotkey) {
      CopiedFrom(s, verified, i, hotkey);
    }
    if d, o :| Copied(verified, hotkey, d, o) {
      CopyFound(s, verified, hotkey, d, o);
    }
  }

  lemma CopiedFrom(s: seq<Delivery>, verified: seq<Delivery>, i: nat, hotkey: string)
    requires InOrder(s, verified) && i < |s| && Copies(s, i, hotkey)
    ensures exists o :: Copied(verified, hotkey, s[i], o)
  {
    FirstFound(s, i, s[i].digest);
    var j :| 0 <= j < i && First(s[..i], s[i].digest) == Some(s[j]) && s[j].digest == s[i].digest && NoneBefore(s, j);
    OriginalIsFirst(s, verified, j);
    assert Copied(verified, hotkey, s[i], s[j]);
  }

  lemma CopyFound(s: seq<Delivery>, verified: seq<Delivery>, hotkey: string, d: Delivery, o: Delivery)
    requires InOrder(s, verified) && Copied(verified, hotkey, d, o)
    ensures exists i :: 0 <= i < |s| && Copies(s, i, hotkey)
  {
    var i :| 0 <= i < |s| && s[i] == d;
    var j :| 0 <= j < |s| && s[j] == o;
    OriginalComesFirst(s, verified, j, i);
    assert Copies(s, i, hotkey);
  }

  lemma OriginalComesFirst(s: seq<Delivery>, verified: seq<Delivery>, j: nat, i: nat)
    requires InOrder(s, verified) && i < |s| && j < |s| && i != j
    requires IsOriginal(verified, s[j]) && s[j].digest == s[i].digest
    ensures First(s[..i], s[i].digest) == Some(s[j])
  {
    OriginalIsFirst(s, verified, j);
    FirstFound(s, i, s[i].digest);
  }

  /** Why the i-th delivery gives its miner a flag: its own numbers, or an output the same miner delivered first before. */
  predicate FlaggedFor(s: seq<Delivery>, i: int, hotkey: string, flag: Flag) {
    0 <= i < |s| && s[i].hotkey == hotkey &&
    (s[i].flag == Some(flag) ||
     exists j :: 0 <= j < i && NoneBefore(s, j) && s[j].digest == s[i].digest && s[j].hotkey == hotkey
                 && flag == OwnRepeat(s[i].jobId, s[j].jobId))
  }

  /** A miner's flags are those of its deliveries, and no others. */
  lemma {:induction false} FlagsExactly(s: seq<Delivery>, n: nat, hotkey: string, flag: Flag)
    requires n <= |s|
    ensures flag in Flags(s[..n], hotkey) <==> exists i :: 0 <= i < n && FlaggedFor(s, i, hotkey, flag)
  {
    if n > 0 {
      FlagsExactly(s, n - 1, hotkey, flag);
      assert s[..n][..n - 1] == s[..n - 1];
      FlagsOfLast(s, n - 1, hotkey, flag);
      assert FlaggedFor(s, n - 1, hotkey, flag) || !FlaggedFor(s, n - 1, hotkey, flag);
    }
  }

  lemma FlagsOfLast(s: seq<Delivery>, n: nat, hotkey: string, flag: Flag)
    requires n < |s|
    ensures flag in Flags(s[..n + 1], hotkey) <==> flag in Flags(s[..n], hotkey) || FlaggedFor(s, n, hotkey, flag)
  {
    assert s[..n + 1][..n] == s[..n];
    FirstFound(s, n, s[n].digest);
  }

  // ------------------------------------------------------------ the audit

  datatype Entry = Unpaid(row: Row) | Paid(delivery: Delivery)

  function RowOf(entry: Entry): Row {
    match entry
    case Unpaid(row) => row
    case Paid(delivery) => delivery.row
  }

  function IdOf(row: Row): string {
    if row.jobId.Some? then row.jobId.value else ""
  }

  function EntryOrder(): (Entry, Entry) -> bool {
    (a: Entry, b: Entry) =>
      KeyLeq(At(RowOf(a).finishedAt), IdOf(RowOf(a)), At(RowOf(b).finishedAt), IdOf(RowOf(b)))
  }

  /** What becomes of a delivery among those in order. */
  function Marked(s: seq<Delivery>, d: Delivery): Delivery {
    var original := First(s, d.digest);
    if original.None? || original.value.jobId == d.jobId then d.(flag := None)
    else d.(flag := None, credit := false, replayOf := Some(original.value.jobId))
  }

  lemma MarkedWhole(s: seq<Delivery>, i: nat)
    requires Apart(s, SameJob()) && i < |s|
    ensures MarkedLast(s[..i], s[i]) == Marked(s, s[i])
  {
    FirstFound(s, i, s[i].digest);
    FirstFound(s, |s|, s[i].digest);
    assert s[..|s|] == s;
  }

  function FailedEntry(): Row -> Option<Entry> {
    (row: Row) => if row.succeeded then None else Some(Unpaid(row))
  }

  function PaidEntry(s: seq<Delivery>): Delivery -> Option<Entry> {
    (d: Delivery) => Some(Paid(Marked(s, d)))
  }

  /** The surviving entries, before they are sorted. */
  function Survivors(ledger: seq<Row>, keys: map<string, EnclaveKey>, profiles: map<string, Profile>): seq<Entry>
    requires ValidProfiles(profiles)
  {
    var verified := Deliveries(ledger, keys, profiles);
    Selected(Failed(ledger), FailedEntry()) + Selected(verified, PaidEntry(Delivered(ledger, keys, profiles)))
  }

  function Unbound(verified: seq<Delivery>): nat {
    if verified == [] then 0
    else Unbound(verified[..|verified| - 1]) + (if verified[|verified| - 1].unbound then 1 else 0)
  }

  datatype Audit = Audit(
    entries: seq<Entry>, dropped: map<Reason, nat>, flags: map<string, seq<Flag>>, penalties: map<string, seq<Penalty>>,
    unbound: nat
  )

  function Counted(counts: map<Reason, nat>, reason: Reason): nat {
    if reason in counts then counts[reason] else 0
  }

  lemma {:induction false} DeliveryRow(ledger: seq<Row>, keys: map<string, EnclaveKey>, profiles: map<string, Profile>, k: nat)
    requires ValidProfiles(profiles) && k < |Deliveries(ledger, keys, profiles)|
    ensures var d := Deliveries(ledger, keys, profiles)[k];
            d.row in ledger && d.row.succeeded && d.row.jobId == Some(d.jobId)
            && VerifyEntry(d.row, keys, profiles) == Success(d)
  {
    var front := ledger[..|ledger| - 1];
    if k < |Deliveries(front, keys, profiles)| {
      DeliveryRow(front, keys, profiles, k);
    } else {
      assert ledger[|ledger| - 1] in ledger;
    }
  }

  lemma {:induction false} JobsApart(ledger: seq<Row>, keys: map<string, EnclaveKey>, profiles: map<string, Profile>)
    requires ValidProfiles(profiles)
    ensures Apart(Deliveries(ledger, keys, profiles), SameJob())
  {
    if ledger != [] {
      var (front, row) := (ledger[..|ledger| - 1], ledger[|ledger| - 1]);
      var before := Deliveries(front, keys, profiles);
      JobsApart(front, keys, profiles);
      forall k | 0 <= k < |before| && !Repeated(front, row) ensures row.jobId != Some(before[k].jobId) {
        DeliveryRow(front, keys, profiles, k);
      }
    }
  }

  /** What the scan of some rows has found. */
  ghost predicate Scanned(
    rows: seq<Row>, keys: map<string, EnclaveKey>, profiles: map<string, Profile>, seen: set<string>, failed: seq<Row>,
    verified: seq<Delivery>, dropped: map<Reason, nat>, unbound: nat
  )
    requires ValidProfiles(profiles)
  {
    && seen == Ids(rows) && failed == Failed(rows) && verified == Deliveries(rows, keys, profiles) && unbound == Unbound(verified)
    && forall reason :: Counted(dropped, reason) == Dropped(rows, keys, profiles, reason)
  }

  method ScanRow(
    ghost front: seq<Row>, raw: Row, keys: map<string, EnclaveKey>, profiles: map<string, Profile>, seen: set<string>,
    failed: seq<Row>, verified: seq<Delivery>, dropped: map<Reason, nat>, unbound: nat
  )
    returns (
      seen': set<string>, failed': seq<Row>, verified': seq<Delivery>, dropped': map<Reason, nat>, unbound': nat
    )
    requires ValidProfiles(profiles) && Scanned(front, keys, profiles, seen, failed, verified, dropped, unbound)
    ensures Scanned(front + [raw], keys, profiles, seen', failed', verified', dropped', unbound')
  {
    seen', failed', verified', dropped', unbound' := seen, failed, verified, dropped, unbound;
    assert (front + [raw])[..|front|] == front;
    IdsSnoc(front, raw);
    if raw.jobId.Some? && raw.jobId.value in seen {
      dropped' := dropped[DuplicateRow := Counted(dropped, DuplicateRow) + 1];
    } else {
      if raw.jobId.Some? {
        seen' := seen + {raw.jobId.value};
      }
      if !raw.succeeded {
        failed' := failed + [raw];
      } else {
        var outcome := VerifyEntry(raw, keys, profiles);
        if outcome.Failure? {
          dropped' := dropped[outcome.error := Counted(dropped, outcome.error) + 1];
        } else {
          assert (verified + [outcome.value])[..|verified|] == verified;
          verified' := verified + [outcome.value];
          if outcome.value.unbound {
            unbound' := unbound + 1;
          }
        }
      }
    }
  }

  /** Keeps the first row of each job, verifies those that succeeded and counts the rest. */
  method ScanLedger(ledger: seq<Row>, keys: map<string, EnclaveKey>, profiles: map<string, Profile>)
    returns (failed: seq<Row>, verified: seq<Delivery>, dropped: map<Reason, nat>, unbound: nat)
    requires ValidProfiles(profiles)
    ensures failed == Failed(ledger) && verified == Deliveries(ledger, keys, profiles) && unbound == Unbound(verified)
    ensures forall reason :: Counted(dropped, reason) == Dropped(ledger, keys, profiles, reason)
  {
    var seen: set<string> := {};
    failed, verified, dropped, unbound := [], [], map[], 0;
    for i := 0 to |ledger|
      invariant Scanned(ledger[..i], keys, profiles, seen, failed, verified, dropped, unbound)
    {
      seen, failed, verified, dropped, unbound :=
        ScanRow(ledger[..i], ledger[i], keys, profiles, seen, failed, verified, dropped, unbound);
      assert ledger[..i + 1] == ledger[..i] + [ledger[i]];
    }
    assert ledger[..|ledger|] == ledger;
  }

  /** The entries safe to score, and what was dropped, flagged and penalised. */
  method AuditLedger(ledger: seq<Row>, keys: map<string, EnclaveKey>, profiles: map<string, Profile>) returns (audit: Audit)
    requires ValidProfiles(profiles)
    ensures audit.entries == Sort(Survivors(ledger, keys, profiles), EntryOrder())
    ensures forall reason :: Counted(audit.dropped, reason) == Dropped(ledger, keys, profiles, reason)
    ensures FlagsAre(audit.flags, Delivered(ledger, keys, profiles))
    ensures PenaltiesAre(audit.penalties, Delivered(ledger, keys, profiles))
    ensures audit.unbound == Unbound(Deliveries(ledger, keys, profiles))
    ensures Apart(audit.entries, SameEntry()) && CreditedApart(audit.entries)
  {
    EntriesOnce(ledger, keys, profiles);
    AuditedCredit(ledger, keys, profiles);
    var failed, verified, dropped, unbound := ScanLedger(ledger, keys, profiles);
    JobsApart(ledger, keys, profiles);
    var entries, flags, penalties := MarkReplays(verified);
    var all := Selected(failed, FailedEntry());
    var marked := CollectMarked(verified, entries);
    audit := Audit(Sort(all + marked, EntryOrder()), dropped, flags, penalties, unbound);
  }

  lemma IdsSnoc(front: seq<Row>, row: Row)
    ensures Ids(front + [row]) == Ids(front) + if row.jobId.Some? then {row.jobId.value} else {}
    ensures row.jobId.Some? ==> (row.jobId.value in Ids(front) <==> Repeated(front, row))
  {
    var now := front + [row];
    forall id | id in Ids(now) ensures id in Ids(front) || row.jobId == Some(id) {
      var k :| 0 <= k < |now| && now[k].jobId == Some(id);
      if k < |front| { assert front[k].jobId == Some(id); }
    }
    forall id | id in Ids(front) ensures id in Ids(now) {
      var k :| 0 <= k < |front| && front[k].jobId == Some(id);
      assert now[k].jobId == Some(id);
    }
    assert now[|front|] == row;
  }

  method CollectMarked(verified: seq<Delivery>, entries: map<string, Delivery>) returns (marked: seq<Entry>)
    requires Apart(verified, SameJob())
    requires EntriesAre(entries, Sort(verified, DeliveryOrder()), |Sort(verified, DeliveryOrder())|)
    ensures marked == Selected(verified, PaidEntry(Sort(verified, DeliveryOrder())))
  {
    ghost var s := Sort(verified, DeliveryOrder());
    SortedInOrder(verified);
    marked := [];
    for k := 0 to |verified|
      invariant marked == Selected(verified[..k], PaidEntry(s))
    {
      assert verified[..k + 1][..k] == verified[..k];
      EntryOf(s, verified, k, entries);
      marked := marked + [Paid(entries[verified[k].jobId])];
    }
    assert verified[..|verified|] == verified;
  }

  lemma EntryOf(s: seq<Delivery>, verified: seq<Delivery>, k: nat, entries: map<string, Delivery>)
    requires InOrder(s, verified) && k < |verified| && EntriesAre(entries, s, |s|)
    ensures verified[k].jobId in entries && entries[verified[k].jobId] == Marked(s, verified[k])
  {
    assert verified[k] in verified;
    var i :| 0 <= i < |s| && s[i] == verified[k];
    MarkedWhole(s, i);
  }

  // ------------------------------------------------------------ each job once

  function SameId(): (Row, Row) -> bool {
    (a: Row, b: Row) => a.jobId.Some? && a.jobId == b.jobId
  }

  function SameEntry(): (Entry, Entry) -> bool {
    (a: Entry, b: Entry) => RowOf(a).jobId.Some? && RowOf(a).jobId == RowOf(b).jobId
  }

  lemma {:induction false} FailedRow(ledger: seq<Row>, k: nat)
    requires k < |Failed(ledger)|
    ensures Failed(ledger)[k] in ledger && !Failed(ledger)[k].succeeded
  {
    if k < |Failed(ledger[..|ledger| - 1])| { FailedRow(ledger[..|ledger| - 1], k); }
  }

  /** A job's rows survive once: never both as a failure and as a delivery. */
  lemma {:induction false} RowsOnce(ledger: seq<Row>, keys: map<string, EnclaveKey>, profiles: map<string, Profile>)
    requires ValidProfiles(profiles)
    ensures Apart(Failed(ledger), SameId())
    ensures forall i, k :: 0 <= i < |Failed(ledger)| && 0 <= k < |Deliveries(ledger, keys, profiles)| ==>
              Failed(ledger)[i].jobId != Some(Deliveries(ledger, keys, profiles)[k].jobId)
  {
    if ledger != [] {
      var (front, row) := (ledger[..|ledger| - 1], ledger[|ledger| - 1]);
      var (failed, verified) := (Failed(front), Deliveries(front, keys, profiles));
      RowsOnce(front, keys, profiles);
      forall i | 0 <= i < |failed| && !Repeated(front, row) && row.jobId.Some? ensures failed[i].jobId != row.jobId {
        FailedRow(front, i);
      }
      forall k | 0 <= k < |verified| && !Repeated(front, row) ensures row.jobId != Some(verified[k].jobId) {
        DeliveryRow(front, keys, profiles, k);
      }
    }
  }

  lemma {:induction false} PaidEntries(s: seq<Delivery>, verified: seq<Delivery>)
    ensures |Selected(verified, PaidEntry(s))| == |verified|
    ensures forall k :: 0 <= k < |verified| ==> Selected(verified, PaidEntry(s))[k] == Paid(Marked(s, verified[k]))
  {
    if verified != [] { PaidEntries(s, verified[..|verified| - 1]); }
  }

  lemma {:induction false} FailedEntries(failed: seq<Row>)
    requires forall k :: 0 <= k < |failed| ==> !failed[k].succeeded
    ensures |Selected(failed, FailedEntry())| == |failed|
    ensures forall k :: 0 <= k < |failed| ==> Selected(failed, FailedEntry())[k] == Unpaid(failed[k])
  {
    if failed != [] { FailedEntries(failed[..|failed| - 1]); }
  }

  /** Each job id survives at most once. */
  lemma EntriesOnce(ledger: seq<Row>, keys: map<string, EnclaveKey>, profiles: map<string, Profile>)
    requires ValidProfiles(profiles)
    ensures Apart(Survivors(ledger, keys, profiles), SameEntry())
    ensures Apart(Sort(Survivors(ledger, keys, profiles), EntryOrder()), SameEntry())
  {
    var (failed, verified) := (Failed(ledger), Deliveries(ledger, keys, profiles));
    var s := Sort(verified, DeliveryOrder());
    RowsOnce(ledger, keys, profiles);
    JobsApart(ledger, keys, profiles);
    forall k | 0 <= k < |failed| ensures !failed[k].succeeded { FailedRow(ledger, k); }
    forall k | 0 <= k < |verified| ensures verified[k].row.jobId == Some(verified[k].jobId) {
      DeliveryRow(ledger, keys, profiles, k);
    }
    FailedEntries(failed);
    PaidEntries(s, verified);
    SurvivorsApart(failed, verified, Selected(failed, FailedEntry()), Selected(verified, PaidEntry(s)), s);
    SortApart(Survivors(ledger, keys, profiles), EntryOrder(), SameEntry());
  }

  lemma SurvivorsApart(failed: seq<Row>, verified: seq<Delivery>, unpaid: seq<Entry>, paid: seq<Entry>, s: seq<Delivery>)
    requires |unpaid| == |failed| && forall k :: 0 <= k < |failed| ==> unpaid[k] == Unpaid(failed[k])
    requires |paid| == |verified| && forall k :: 0 <= k < |verified| ==> paid[k] == Paid(Marked(s, verified[k]))
    requires forall k :: 0 <= k < |verified| ==> verified[k].row.jobId == Some(verified[k].jobId)
    requires Apart(failed, SameId()) && Apart(verified, SameJob())
    requires forall i, k :: 0 <= i < |failed| && 0 <= k < |verified| ==> failed[i].jobId != Some(verified[k].jobId)
    ensures Apart(unpaid + paid, SameEntry())
  {
    var all := unpaid + paid;
    forall i, j | 0 <= i < j < |all| ensures !SameEntry()(all[i], all[j]) {
      if j < |unpaid| {
        assert !SameId()(failed[i], failed[j]);
      } else if i >= |unpaid| {
        assert !SameJob()(verified[i - |unpaid|], verified[j - |unpaid|]);
      } else {
        assert failed[i].jobId != Some(verified[j - |unpaid|].jobId);
      }
    }
  }

  // ------------------------------------------------------------ credit and penalties of the surviving entries

  lemma DeliveredInOrder(ledger: seq<Row>, keys: map<string, EnclaveKey>, profiles: map<string, Profile>)
    requires ValidProfiles(profiles)
    ensures InOrder(Delivered(ledger, keys, profiles), Deliveries(ledger, keys, profiles))
  {
    JobsApart(ledger, keys, profiles);
    SortedInOrder(Deliveries(ledger, keys, profiles));
  }

  /** A paid entry is a delivery as marked after those before it, and its row is what was verified. */
  lemma PaidAt(ledger: seq<Row>, keys: map<string, EnclaveKey>, profiles: map<string, Profile>, x: Entry) returns (i: nat)
    requires ValidProfiles(profiles) && x in Survivors(ledger, keys, profiles) && x.Paid?
    ensures var s := Delivered(ledger, keys, profiles);
            && i < |s| && x.delivery == MarkedLast(s[..i], s[i]) && VerifyEntry(s[i].row, keys, profiles) == Success(s[i])
  {
    var (s, verified) := (Delivered(ledger, keys, profiles), Deliveries(ledger, keys, profiles));
    DeliveredInOrder(ledger, keys, profiles);
    forall k | 0 <= k < |Failed(ledger)| ensures !Failed(ledger)[k].succeeded { FailedRow(ledger, k); }
    FailedEntries(Failed(ledger));
    PaidEntries(s, verified);
    var k :| 0 <= k < |verified| && x == Paid(Marked(s, verified[k]));
    DeliveryRow(ledger, keys, profiles, k);
    assert verified[k] in verified;
    i :| 0 <= i < |s| && s[i] == verified[k];
    MarkedWhole(s, i);
  }

  /** Every delivery survives as a paid entry. */
  lemma PaidOf(ledger: seq<Row>, keys: map<string, EnclaveKey>, profiles: map<string, Profile>, i: nat)
    requires ValidProfiles(profiles) && i < |Delivered(ledger, keys, profiles)|
    ensures var s := Delivered(ledger, keys, profiles); Paid(MarkedLast(s[..i], s[i])) in Survivors(ledger, keys, profiles)
  {
    var (s, verified) := (Delivered(ledger, keys, profiles), Deliveries(ledger, keys, profiles));
    DeliveredInOrder(ledger, keys, profiles);
    PaidEntries(s, verified);
    assert s[i] in verified;
    var k :| 0 <= k < |verified| && verified[k] == s[i];
    MarkedWhole(s, i);
    assert Selected(verified, PaidEntry(s))[k] == Paid(MarkedLast(s[..i], s[i]));
  }

  /** The same delivery, marked or not. */
  predicate SameDelivery(a: Delivery, b: Delivery) {
    a.row == b.row && a.jobId == b.jobId && a.digest == b.digest && a.hotkey == b.hotkey
  }

  /** The paid entry of a delivery. */
  lemma EntryFor(ledger: seq<Row>, keys: map<string, EnclaveKey>, profiles: map<string, Profile>, d: Delivery) returns (x: Entry)
    requires ValidProfiles(profiles) && d in Deliveries(ledger, keys, profiles)
    ensures x in Survivors(ledger, keys, profiles) && x.Paid? && SameDelivery(x.delivery, d)
  {
    var s := Delivered(ledger, keys, profiles);
    DeliveredInOrder(ledger, keys, profiles);
    var i :| 0 <= i < |s| && s[i] == d;
    PaidOf(ledger, keys, profiles, i);
    x := Paid(MarkedLast(s[..i], s[i]));
  }

  /** The delivery of a paid entry. */
  lemma DeliveryFor(ledger: seq<Row>, keys: map<string, EnclaveKey>, profiles: map<string, Profile>, x: Entry)
    returns (d: Delivery)
    requires ValidProfiles(profiles) && x in Survivors(ledger, keys, profiles) && x.Paid?
    ensures d in Deliveries(ledger, keys, profiles) && SameDelivery(x.delivery, d)
  {
    var i := PaidAt(ledger, keys, profiles, x);
    DeliveredInOrder(ledger, keys, profiles);
    d := Delivered(ledger, keys, profiles)[i];
  }

  /** Finished no later, a missing time counting as 0, and at the same time with no greater job id. */
  predicate NotAfter(a: Delivery, b: Delivery) {
    var x := if a.row.finishedAt == None then 0.0 else a.row.finishedAt.value;
    var y := if b.row.finishedAt == None then 0.0 else b.row.finishedAt.value;
    x <= y && (x == y ==> StringLeq(a.jobId, b.jobId))
  }

  lemma NotAfterIsOrder(a: Delivery, b: Delivery)
    ensures NotAfter(a, b) <==> DeliveryOrder()(a, b)
  {
  }

  /** Among these entries, no paid one for the same output was delivered before this one. */
  ghost predicate IsEarliest(entries: seq<Entry>, d: Delivery) {
    forall y :: y in entries && y.Paid? && y.delivery.digest == d.digest ==> NotAfter(d, y.delivery)
  }

  lemma EarliestIsOriginal(
    ledger: seq<Row>, keys: map<string, EnclaveKey>, profiles: map<string, Profile>, marked: Delivery, d: Delivery
  )
    requires ValidProfiles(profiles) && SameDelivery(marked, d)
    ensures IsEarliest(Survivors(ledger, keys, profiles), marked) <==> IsOriginal(Deliveries(ledger, keys, profiles), d)
  {
    var (entries, verified) := (Survivors(ledger, keys, profiles), Deliveries(ledger, keys, profiles));
    if IsOriginal(verified, d) {
      forall y | y in entries && y.Paid? && y.delivery.digest == d.digest ensures NotAfter(marked, y.delivery) {
        var e := DeliveryFor(ledger, keys, profiles, y);
        NotAfterIsOrder(d, e);
      }
    }
    if IsEarliest(entries, marked) {
      forall e | e in verified && e.digest == d.digest ensures DeliveryOrder()(d, e) {
        var y := EntryFor(ledger, keys, profiles, e);
        assert NotAfter(marked, y.delivery);
        NotAfterIsOrder(d, e);
      }
    }
  }

  /** A surviving entry is credited exactly when its own numbers earned it and it is the earliest delivery of its output among
      the surviving entries, by finish time and then job id. */
  lemma CreditExactly(ledger: seq<Row>, keys: map<string, EnclaveKey>, profiles: map<string, Profile>, x: Entry)
    requires ValidProfiles(profiles) && x in Survivors(ledger, keys, profiles) && x.Paid?
    ensures Genuine(x.delivery.row, keys, profiles)
    ensures x.delivery.credit <==>
            Earned(x.delivery.row, profiles) && IsEarliest(Survivors(ledger, keys, profiles), x.delivery)
  {
    var i := PaidAt(ledger, keys, profiles, x);
    var s := Delivered(ledger, keys, profiles);
    EntryExactly(x.delivery.row, keys, profiles, s[i]);
    DeliveredInOrder(ledger, keys, profiles);
    EarliestIsOriginal(ledger, keys, profiles, x.delivery, s[i]);
    MarkedCredit(s, Deliveries(ledger, keys, profiles), i);
  }

  /** No two of these entries are credited for one output. */
  ghost predicate CreditedApart(entries: seq<Entry>) {
    forall x, y ::
      x in entries && y in entries && x.Paid? && y.Paid? && x.delivery.credit && y.delivery.credit
      && x.delivery.digest == y.delivery.digest
      ==> x == y
  }

  /** Whatever rows arrive, each output is credited at most once. */
  lemma CreditedOnce(ledger: seq<Row>, keys: map<string, EnclaveKey>, profiles: map<string, Profile>)
    requires ValidProfiles(profiles)
    ensures CreditedApart(Survivors(ledger, keys, profiles))
  {
    var (s, entries) := (Delivered(ledger, keys, profiles), Survivors(ledger, keys, profiles));
    DeliveredInOrder(ledger, keys, profiles);
    forall x, y | x in entries && y in entries && x.Paid? && y.Paid? && x.delivery.credit && y.delivery.credit
                  && x.delivery.digest == y.delivery.digest
      ensures x == y
    {
      var i := PaidAt(ledger, keys, profiles, x);
      var j := PaidAt(ledger, keys, profiles, y);
      MarkedCreditOnce(s, Deliveries(ledger, keys, profiles), i, j);
    }
  }

  lemma AuditedCredit(ledger: seq<Row>, keys: map<string, EnclaveKey>, profiles: map<string, Profile>)
    requires ValidProfiles(profiles)
    ensures CreditedApart(Sort(Survivors(ledger, keys, profiles), EntryOrder()))
  {
    var entries := Survivors(ledger, keys, profiles);
    CreditedOnce(ledger, keys, profiles);
    SortKeepsElements(entries, EntryOrder());
    forall x | x in Sort(entries, EntryOrder()) ensures x in entries {
      assert x in multiset(Sort(entries, EntryOrder()));
    }
  }

  /** One of these entries is credited for the output. */
  ghost predicate OutputCredited(entries: seq<Entry>, digest: string) {
    exists y :: y in entries && y.Paid? && y.delivery.digest == digest && y.delivery.credit
  }

  /** The documented policy credits the earliest delivery of an output. It does so exactly when that delivery's own numbers
      check out; otherwise nobody is credited for the output. */
  lemma EarliestCredited(ledger: seq<Row>, keys: map<string, EnclaveKey>, profiles: map<string, Profile>, x: Entry)
    requires ValidProfiles(profiles) && x in Survivors(ledger, keys, profiles) && x.Paid?
    requires IsEarliest(Survivors(ledger, keys, profiles), x.delivery)
    ensures OutputCredited(Survivors(ledger, keys, profiles), x.delivery.digest) <==> Earned(x.delivery.row, profiles)
  {
    var entries := Survivors(ledger, keys, profiles);
    CreditExactly(ledger, keys, profiles, x);
    if y :| y in entries && y.Paid? && y.delivery.digest == x.delivery.digest && y.delivery.credit {
      CreditExactly(ledger, keys, profiles, y);
      SameEarliest(ledger, keys, profiles, x, y);
    }
  }

  /** It does happen: two miners deliver one output, the earlier with a length out of bounds. Both entries survive, the
      later one's own numbers check out, and neither is credited. */
  lemma EarliestNotCredited()
    returns (ledger: seq<Row>, keys: map<string, EnclaveKey>, profiles: map<string, Profile>, early: Entry, late: Entry)
    ensures ValidProfiles(profiles)
    ensures early in Survivors(ledger, keys, profiles) && late in Survivors(ledger, keys, profiles) && early != late
    ensures early.Paid? && late.Paid? && early.delivery.digest == late.delivery.digest
    ensures Genuine(late.delivery.row, keys, profiles) && Earned(late.delivery.row, profiles)
    ensures !OutputCredited(Survivors(ledger, keys, profiles), early.delivery.digest)
  {
    profiles := map["p" := Profile(24, PlanFit.LtxNumFrames, None, false)];
    PlanFit.WholeFrames(5);
    keys := map["e" := EnclaveKey(Some("m"), "k"), "f" := EnclaveKey(Some("n"), "l")];
    var (a, b) := (VideoRow("a", 1.0, "e", 9.0, "k"), VideoRow("b", 2.0, "f", 5.0, "l"));
    ledger := [a, b];
    var (first, second) := (VerifyEntry(a, keys, profiles).value, VerifyEntry(b, keys, profiles).value);
    assert first.row == a && !first.credit && second.row == b && second.credit && first.digest == second.digest;
    EntryExactly(a, keys, profiles, first);
    EntryExactly(b, keys, profiles, second);
    TwoRows(a, b, keys, profiles);
    TwoDelivered(ledger, keys, profiles, first, second);
    PaidOf(ledger, keys, profiles, 0);
    PaidOf(ledger, keys, profiles, 1);
    early, late := Paid(MarkedLast([], first)), Paid(MarkedLast([first], second));
    EarliestCredited(ledger, keys, profiles, early);
  }

  /** A five-second video job, its receipt claiming another length. */
  function VideoRow(jobId: string, finishedAt: real, enclaveId: string, claimed: real, signer: string): Row {
    var body := Body(enclaveId, jobId, "p", None, OtherDigest(""), "out", 1.0, VideoInfo(claimed));
    Row(Some(jobId), true, Some(finishedAt), "p", Some(enclaveId), Some(Receipt(body, signer)), None, Some(5.0))
  }

  lemma TwoRows(a: Row, b: Row, keys: map<string, EnclaveKey>, profiles: map<string, Profile>)
    requires ValidProfiles(profiles) && a.succeeded && b.succeeded && a.jobId != b.jobId
    requires VerifyEntry(a, keys, profiles).Success? && VerifyEntry(b, keys, profiles).Success?
    ensures Deliveries([a, b], keys, profiles) == [VerifyEntry(a, keys, profiles).value, VerifyEntry(b, keys, profiles).value]
  {
    assert [a, b][..1] == [a] && [a][..0] == [];
    assert !Repeated([], a) && !Repeated([a], b);
    assert Deliveries([a], keys, profiles) == [VerifyEntry(a, keys, profiles).value];
  }

  lemma TwoDelivered(
    ledger: seq<Row>, keys: map<string, EnclaveKey>, profiles: map<string, Profile>, first: Delivery, second: Delivery
  )
    requires ValidProfiles(profiles) && Deliveries(ledger, keys, profiles) == [first, second]
    requires At(first.row.finishedAt) < At(second.row.finishedAt)
    ensures var s := Delivered(ledger, keys, profiles); s == [first, second] && s[..0] == [] && s[..1] == [first]
    ensures IsEarliest(Survivors(ledger, keys, profiles), MarkedLast([], first))
  {
    var s := [first, second];
    assert Sorted(s, DeliveryOrder());
    SortOfSorted(s, DeliveryOrder());
    assert s[..0] == [] && s[..1] == [first];
    StringLeqTotal(first.jobId, first.jobId);
    assert IsOriginal(s, first);
    EarliestIsOriginal(ledger, keys, profiles, MarkedLast([], first), first);
  }

  lemma OneJobPlace(s: seq<Delivery>, i: nat, j: nat)
    requires Apart(s, SameJob()) && i < |s| && j < |s| && s[i].jobId == s[j].jobId
    ensures i == j
  {
    assert SameJob()(s[i], s[j]) && SameJob()(s[j], s[i]);
  }

  lemma PaidPlace(ledger: seq<Row>, keys: map<string, EnclaveKey>, profiles: map<string, Profile>, x: Entry) returns (i: nat)
    requires ValidProfiles(profiles) && x in Survivors(ledger, keys, profiles) && x.Paid?
    ensures var s := Delivered(ledger, keys, profiles);
            i < |s| && x == Paid(MarkedLast(s[..i], s[i])) && x.delivery.jobId == s[i].jobId
  {
    i := PaidAt(ledger, keys, profiles, x);
  }

  lemma SameEarliest(ledger: seq<Row>, keys: map<string, EnclaveKey>, profiles: map<string, Profile>, x: Entry, y: Entry)
    requires ValidProfiles(profiles) && x in Survivors(ledger, keys, profiles) && y in Survivors(ledger, keys, profiles)
    requires x.Paid? && y.Paid? && x.delivery.digest == y.delivery.digest
    requires IsEarliest(Survivors(ledger, keys, profiles), x.delivery) && IsEarliest(Survivors(ledger, keys, profiles), y.delivery)
    ensures x == y
  {
    var i := PaidPlace(ledger, keys, profiles, x);
    var j := PaidPlace(ledger, keys, profiles, y);
    assert x.delivery.jobId == y.delivery.jobId by { EarliestJob(Survivors(ledger, keys, profiles), x, y); }
    assert i == j by {
      DeliveredInOrder(ledger, keys, profiles);
      OneJobPlace(Delivered(ledger, keys, profiles), i, j);
    }
  }

  lemma EarliestJob(entries: seq<Entry>, x: Entry, y: Entry)
    requires x in entries && y in entries && x.Paid? && y.Paid? && x.delivery.digest == y.delivery.digest
    requires IsEarliest(entries, x.delivery) && IsEarliest(entries, y.delivery)
    ensures x.delivery.jobId == y.delivery.jobId
  {
    assert NotAfter(x.delivery, y.delivery) && NotAfter(y.delivery, x.delivery);
    StringLeqTotal(x.delivery.jobId, y.delivery.jobId);
  }

  /** The miner delivered an output whose earliest delivery among the entries is another miner's. */
  ghost predicate Replays(entries: seq<Entry>, hotkey: string, x: Entry, original: Entry) {
    && x in entries && original in entries && x.Paid? && original.Paid? && x.delivery.digest == original.delivery.digest
    && IsEarliest(entries, original.delivery) && x.delivery.hotkey == hotkey && original.delivery.hotkey != hotkey
  }

  /** A miner is penalised exactly when it delivered an output whose earliest delivery is another miner's. */
  lemma PenaltyExactly(ledger: seq<Row>, keys: map<string, EnclaveKey>, profiles: map<string, Profile>, hotkey: string)
    requires ValidProfiles(profiles)
    ensures Penalties(Delivered(ledger, keys, profiles), hotkey) != []
            <==> exists x, original :: Replays(Survivors(ledger, keys, profiles), hotkey, x, original)
  {
    var verified := Deliveries(ledger, keys, profiles);
    assert Penalties(Delivered(ledger, keys, profiles), hotkey) != [] <==> exists d, o :: Copied(verified, hotkey, d, o) by {
      DeliveredInOrder(ledger, keys, profiles);
      PenalisedCopier(Delivered(ledger, keys, profiles), verified, hotkey);
    }
    if d, o :| Copied(verified, hotkey, d, o) {
      var x := EntryFor(ledger, keys, profiles, d);
      var original := EntryFor(ledger, keys, profiles, o);
      EarliestIsOriginal(ledger, keys, profiles, original.delivery, o);
      assert Replays(Survivors(ledger, keys, profiles), hotkey, x, original);
    }
    if x, original :| Replays(Survivors(ledger, keys, profiles), hotkey, x, original) {
      var d := DeliveryFor(ledger, keys, profiles, x);
      var o := DeliveryFor(ledger, keys, profiles, original);
      EarliestIsOriginal(ledger, keys, profiles, original.delivery, o);
      assert Copied(verified, hotkey, d, o);
    }
  }

  // ------------------------------------------------------------ who survives

  /** No row before it names its job. */
  predicate FirstOfJob(ledger: seq<Row>, i: int) {
    0 <= i < |ledger| && (ledger[i].jobId.Some? ==> forall j :: 0 <= j < i ==> ledger[j].jobId != ledger[i].jobId)
  }

  ghost predicate IsFirst(ledger: seq<Row>, row: Row) {
    exists i :: FirstOfJob(ledger, i) && ledger[i] == row
  }

  lemma FirstInFront(ledger: seq<Row>, i: nat)
    requires i < |ledger| - 1
    ensures FirstOfJob(ledger, i) <==> FirstOfJob(ledger[..|ledger| - 1], i)
  {
  }

  lemma LastIsFirst(ledger: seq<Row>)
    requires ledger != []
    ensures FirstOfJob(ledger, |ledger| - 1) <==> !Repeated(ledger[..|ledger| - 1], ledger[|ledger| - 1])
  {
    var (front, row) := (ledger[..|ledger| - 1], ledger[|ledger| - 1]);
    if Repeated(front, row) {
      var i :| 0 <= i < |front| && front[i].jobId == row.jobId;
      assert ledger[i].jobId == row.jobId;
    } else {
      assert forall i :: 0 <= i < |front| ==> front[i] == ledger[i];
    }
  }

  lemma {:induction false} RowDelivered(ledger: seq<Row>, keys: map<string, EnclaveKey>, profiles: map<string, Profile>, row: Row)
    requires ValidProfiles(profiles)
    ensures (exists d :: d in Deliveries(ledger, keys, profiles) && d.row == row)
            <==> row.succeeded && Genuine(row, keys, profiles) && IsFirst(ledger, row)
  {
    if ledger != [] {
      var (n, front) := (|ledger| - 1, ledger[..|ledger| - 1]);
      RowDelivered(front, keys, profiles, row);
      EntryVerifies(ledger[n], keys, profiles);
      LastIsFirst(ledger);
      FirstSnoc(ledger, row);
      DeliverySnoc(ledger, keys, profiles, row);
    }
  }

  lemma FirstSnoc(ledger: seq<Row>, row: Row)
    requires ledger != []
    ensures IsFirst(ledger, row)
            <==> IsFirst(ledger[..|ledger| - 1], row) || (FirstOfJob(ledger, |ledger| - 1) && ledger[|ledger| - 1] == row)
  {
    var front := ledger[..|ledger| - 1];
    if i :| FirstOfJob(ledger, i) && ledger[i] == row && i < |front| {
      FirstInFront(ledger, i);
      assert front[i] == row;
    }
    if i :| FirstOfJob(front, i) && front[i] == row {
      FirstInFront(ledger, i);
      assert ledger[i] == row;
    }
  }

  lemma DeliverySnoc(ledger: seq<Row>, keys: map<string, EnclaveKey>, profiles: map<string, Profile>, row: Row)
    requires ValidProfiles(profiles) && ledger != []
    ensures var (front, last) := (ledger[..|ledger| - 1], ledger[|ledger| - 1]);
            (exists d :: d in Deliveries(ledger, keys, profiles) && d.row == row)
            <==> (exists d :: d in Deliveries(front, keys, profiles) && d.row == row)
                 || (!Repeated(front, last) && last.succeeded && VerifyEntry(last, keys, profiles).Success? && last == row)
  {
    var (front, last) := (ledger[..|ledger| - 1], ledger[|ledger| - 1]);
    var (before, now) := (Deliveries(front, keys, profiles), Deliveries(ledger, keys, profiles));
    if !Repeated(front, last) && last.succeeded && VerifyEntry(last, keys, profiles).Success? {
      var d := VerifyEntry(last, keys, profiles).value;
      assert now == before + [d] && d.row == last;
      assert d in now && forall e :: e in before ==> e in now;
    } else {
      assert now == before;
    }
  }

  lemma {:induction false} RowFailed(ledger: seq<Row>, row: Row)
    ensures row in Failed(ledger) <==> !row.succeeded && IsFirst(ledger, row)
  {
    if ledger != [] {
      RowFailed(ledger[..|ledger| - 1], row);
      LastIsFirst(ledger);
      FirstSnoc(ledger, row);
    }
  }

  /** A row survives exactly when it is the first of its job and failed, or succeeded and is genuine. */
  lemma SurvivesExactly(ledger: seq<Row>, keys: map<string, EnclaveKey>, profiles: map<string, Profile>, row: Row)
    requires ValidProfiles(profiles)
    ensures (exists x :: x in Survivors(ledger, keys, profiles) && RowOf(x) == row && x.Paid? == row.succeeded)
            <==> IsFirst(ledger, row) && (row.succeeded ==> Genuine(row, keys, profiles))
  {
    var (entries, failed) := (Survivors(ledger, keys, profiles), Failed(ledger));
    if row.succeeded {
      RowDelivered(ledger, keys, profiles, row);
      if d :| d in Deliveries(ledger, keys, profiles) && d.row == row {
        var x := EntryFor(ledger, keys, profiles, d);
        assert RowOf(x) == row;
      }
      if x :| x in entries && RowOf(x) == row && x.Paid? {
        var d := DeliveryFor(ledger, keys, profiles, x);
        assert d.row == row;
      }
    } else {
      RowFailed(ledger, row);
      UnpaidSurvives(ledger, keys, profiles, row);
    }
  }

  lemma UnpaidSurvives(ledger: seq<Row>, keys: map<string, EnclaveKey>, profiles: map<string, Profile>, row: Row)
    requires ValidProfiles(profiles)
    ensures Unpaid(row) in Survivors(ledger, keys, profiles) <==> row in Failed(ledger)
  {
    var (failed, verified) := (Failed(ledger), Deliveries(ledger, keys, profiles));
    forall k | 0 <= k < |failed| ensures !failed[k].succeeded { FailedRow(ledger, k); }
    FailedEntries(failed);
    PaidEntries(Delivered(ledger, keys, profiles), verified);
    var unpaid := Selected(failed, FailedEntry());
    if row in failed {
      var k :| 0 <= k < |failed| && failed[k] == row;
      assert unpaid[k] == Unpaid(row);
    }
  }

  // ------------------------------------------------------------ the order of rows

  /** Every row names its job, and no two rows the same one. */
  predicate DistinctRows(ledger: seq<Row>) {
    (forall i :: 0 <= i < |ledger| ==> ledger[i].jobId.Some?) && Apart(ledger, SameId())
  }

  function DeliveredRow(keys: map<string, EnclaveKey>, profiles: map<string, Profile>): Row -> Option<Delivery>
    requires ValidProfiles(profiles)
  {
    (row: Row) =>
      if row.succeeded && VerifyEntry(row, keys, profiles).Success? then Some(VerifyEntry(row, keys, profiles).value) else None
  }

  function FailedRowOnly(): Row -> Option<Row> {
    (row: Row) => if row.succeeded then None else Some(row)
  }

  function DroppedRow(keys: map<string, EnclaveKey>, profiles: map<string, Profile>, reason: Reason): Row -> Option<Row>
    requires ValidProfiles(profiles)
  {
    (row: Row) => if row.succeeded && VerifyEntry(row, keys, profiles) == Failure(reason) then Some(row) else None
  }

  lemma {:induction false} DistinctSelected(
    ledger: seq<Row>, keys: map<string, EnclaveKey>, profiles: map<string, Profile>, reason: Reason
  )
    requires ValidProfiles(profiles) && DistinctRows(ledger)
    ensures Deliveries(ledger, keys, profiles) == Selected(ledger, DeliveredRow(keys, profiles))
    ensures Failed(ledger) == Selected(ledger, FailedRowOnly())
    ensures Dropped(ledger, keys, profiles, reason) == |Selected(ledger, DroppedRow(keys, profiles, reason))|
  {
    if ledger != [] {
      var (front, row) := (ledger[..|ledger| - 1], ledger[|ledger| - 1]);
      DistinctSelected(front, keys, profiles, reason);
      assert forall i :: 0 <= i < |front| ==> !SameId()(front[i], row);
      assert !Repeated(front, row);
    }
  }

  /** Permuting rows of different jobs changes no entry, credit, flag, penalty or count. */
  lemma RowOrderIsIrrelevant(
    ledger: seq<Row>, other: seq<Row>, keys: map<string, EnclaveKey>, profiles: map<string, Profile>, reason: Reason
  )
    requires ValidProfiles(profiles) && DistinctRows(ledger) && DistinctRows(other) && multiset(ledger) == multiset(other)
    ensures Delivered(ledger, keys, profiles) == Delivered(other, keys, profiles)
    ensures Sort(Survivors(ledger, keys, profiles), EntryOrder()) == Sort(Survivors(other, keys, profiles), EntryOrder())
    ensures Dropped(ledger, keys, profiles, reason) == Dropped(other, keys, profiles, reason)
    ensures Unbound(Deliveries(ledger, keys, profiles)) == Unbound(Deliveries(other, keys, profiles))
  {
    DistinctSelected(ledger, keys, profiles, reason);
    DistinctSelected(other, keys, profiles, reason);
    SelectedIgnoresOrder(ledger, other, DeliveredRow(keys, profiles));
    SelectedIgnoresOrder(ledger, other, FailedRowOnly());
    SelectedIgnoresOrder(ledger, other, DroppedRow(keys, profiles, reason));
    SameCardinality(Selected(ledger, DroppedRow(keys, profiles, reason)), Selected(other, DroppedRow(keys, profiles, reason)));
    var (verified, verified') := (Deliveries(ledger, keys, profiles), Deliveries(other, keys, profiles));
    JobsApart(ledger, keys, profiles);
    SameUnbound(verified, verified');
    SameDeliveries(verified, verified');
    var s := Sort(verified, DeliveryOrder());
    SelectedIgnoresOrder(verified, verified', PaidEntry(s));
    SelectedIgnoresOrder(Failed(ledger), Failed(other), FailedEntry());
    EntriesOnce(ledger, keys, profiles);
    SurvivorsNamed(ledger, keys, profiles);
    SameEntries(Survivors(ledger, keys, profiles), Survivors(other, keys, profiles));
  }

  lemma SameCardinality<T>(s: seq<T>, t: seq<T>)
    requires multiset(s) == multiset(t)
    ensures |s| == |t|
  {
    assert |multiset(s)| == |s| && |multiset(t)| == |t|;
  }

  function UnboundOnly(): Delivery -> Option<Delivery> {
    (d: Delivery) => if d.unbound then Some(d) else None
  }

  lemma {:induction false} UnboundSelected(verified: seq<Delivery>)
    ensures Unbound(verified) == |Selected(verified, UnboundOnly())|
  {
    if verified != [] { UnboundSelected(verified[..|verified| - 1]); }
  }

  lemma SameUnbound(verified: seq<Delivery>, verified': seq<Delivery>)
    requires multiset(verified) == multiset(verified')
    ensures Unbound(verified) == Unbound(verified')
  {
    SelectedIgnoresOrder(verified, verified', UnboundOnly());
    UnboundSelected(verified);
    UnboundSelected(verified');
    SameCardinality(Selected(verified, UnboundOnly()), Selected(verified', UnboundOnly()));
  }

  lemma SameDeliveries(verified: seq<Delivery>, verified': seq<Delivery>)
    requires multiset(verified) == multiset(verified') && Apart(verified, SameJob())
    ensures Sort(verified, DeliveryOrder()) == Sort(verified', DeliveryOrder())
  {
    DeliveriesOrdered();
    forall a, b | a in multiset(verified) && b in multiset(verified) && DeliveryOrder()(a, b) && DeliveryOrder()(b, a)
      ensures a == b
    {
      StringLeqTotal(a.jobId, b.jobId);
      var i :| 0 <= i < |verified| && verified[i] == a;
      var j :| 0 <= j < |verified| && verified[j] == b;
      assert SameJob()(verified[i], verified[j]) && SameJob()(verified[j], verified[i]);
    }
    SortIgnoresOrder(verified, verified', DeliveryOrder());
  }

  /** Every entry names its job. */
  predicate Named(entries: seq<Entry>) {
    forall i :: 0 <= i < |entries| ==> RowOf(entries[i]).jobId.Some?
  }

  lemma SurvivorsNamed(ledger: seq<Row>, keys: map<string, EnclaveKey>, profiles: map<string, Profile>)
    requires ValidProfiles(profiles) && DistinctRows(ledger)
    ensures Named(Survivors(ledger, keys, profiles))
  {
    var (failed, verified) := (Failed(ledger), Deliveries(ledger, keys, profiles));
    forall k | 0 <= k < |failed| ensures !failed[k].succeeded && failed[k].jobId.Some? { FailedRow(ledger, k); }
    forall k | 0 <= k < |verified| ensures verified[k].row.jobId.Some? { DeliveryRow(ledger, keys, profiles, k); }
    FailedEntries(failed);
    PaidEntries(Sort(verified, DeliveryOrder()), verified);
  }

  lemma EntriesOrdered()
    ensures Ordering(EntryOrder())
  {
    forall a: Entry, b: Entry ensures EntryOrder()(a, b) || EntryOrder()(b, a) {
      StringLeqTotal(IdOf(RowOf(a)), IdOf(RowOf(b)));
    }
    forall a: Entry, b: Entry, c: Entry | EntryOrder()(a, b) && EntryOrder()(b, c) ensures EntryOrder()(a, c) {
      var (x, y, z) := (IdOf(RowOf(a)), IdOf(RowOf(b)), IdOf(RowOf(c)));
      if StringLeq(x, y) && StringLeq(y, z) { StringLeqTransitive(x, y, z); }
    }
  }

  lemma SameKeys(a: Entry, b: Entry)
    requires EntryOrder()(a, b) && EntryOrder()(b, a) && RowOf(a).jobId.Some? && RowOf(b).jobId.Some?
    ensures SameEntry()(a, b) && SameEntry()(b, a)
  {
    StringLeqTotal(IdOf(RowOf(a)), IdOf(RowOf(b)));
  }

  lemma SameEntries(entries: seq<Entry>, entries': seq<Entry>)
    requires multiset(entries) == multiset(entries') && Apart(entries, SameEntry()) && Named(entries)
    ensures Sort(entries, EntryOrder()) == Sort(entries', EntryOrder())
  {
    EntriesOrdered();
    forall a, b | a in multiset(entries) && b in multiset(entries) && EntryOrder()(a, b) && EntryOrder()(b, a)
      ensures a == b
    {
      var i :| 0 <= i < |entries| && entries[i] == a;
      var j :| 0 <= j < |entries| && entries[j] == b;
      SameKeys(entries[i], entries[j]);
    }
    SortIgnoresOrder(entries, entries', EntryOrder());
  }
}
