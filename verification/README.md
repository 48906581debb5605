# Kuno protocol and validator: verified model

A Dafny model of the algorithmic core of a subnet that pays miners for rendering video inside attested enclaves. It covers
what a miner's enclave, the network's protocol library and a validator must agree on, and what the validator pays for it:

- **Step commitments and audits.** `Merkle` (the RFC 9162 tree, its audit paths and the bit-shifting inclusion check),
  `Openings` (step schedules, commitments, and the check of an opening), `OpeningFrame` (the sealed binary frame of an
  opening) and `AuditResponder` (the enclave's side of an audit).
- **Sealed media and requests.** `Padding` (PADMÉ buckets), `Blobs` (chunked encryption of media), `SealedPayload`
  (padded job requests).
- **Plans.** `PlanFit` (snapping shot durations to a grid and the greedy fit to a target length) and `JsonRepair` (the two
  string-aware scanners and the one-step repair of a planner's reply).
- **Pay.** `Capacity` (verified GPU uptime), `Ledger` (which deliveries earn), `Emissions` and `Scoring` (splitting the
  emission), `Ranking` and `Shares` (turbo competitions), `RateDerivation` (least-squares fits of benchmark cells).
- **Measurement.** `TdHob` (the partition of guest memory that a TD measures) and `SetupHeader` (the kernel header patch
  and its normalization).
- **Codecs.** `Hotkey` (base 58 and SS58), `C2paCerts` (the DER extension that binds a certificate to an enclave).

`HexText` holds hexadecimal text, and `Wrappers`, `Bits`, `Digits`, `Sorting` and `Sums` what several modules share.
`dafny verify dfyconfig.toml` checks everything.

Conventions. A hash is a constructor of a datatype, so it is injective; an authenticated cipher opens what a log of sealed
messages holds and nothing else, and a sealed box opens for the key it names; a signature names the key that made it. Floats
are exact reals. What the source raises as an exception is a `Failure`, and what it returns as None is an option. Where the
source computes with expressions there are functions, and where it loops or updates there are methods, each proved against a
function or a predicate about which the properties are then proved. Lemmas called `...Exactly` or `...Is` say what such a function
accepts or builds in terms of its inputs alone, without the helpers it is written with.

## Where code and documentation disagree

- A turbo submission is documented to rank above an earlier commitment only if it is faster by more than the margin
  (protocol/src/kuno_protocol/turbo.py:181-183). `Ranking.DocumentedRuleFails` gives three submissions for which it does
  not, and `Ranking.DocumentedRule` the exact condition.
- The replay policy is documented to credit the earliest delivery of an output (validator/src/kuno_validator/ledger.py:19).
  When that delivery's own numbers are off, nobody is credited: `Ledger.EarliestNotCredited`, `Ledger.EarliestCredited`.

## Edges of the code

Nothing documents these otherwise; each is stated with its exact condition and an input on the failing side.

- SS58 encoding accepts networks up to 65535, but an address decodes to its network only below 16384
  (`Hotkey.DecodeOfEncode`).
- The last memory range of a TD HOB is always emitted as unaccepted (`TdHob.EmittedAccepted`,
  `TdHob.LastSectionUnaccepted`), and with 2.75 GiB or more its length counts from 2 GiB whatever it starts at
  (`TdHob.EmittedTotal`, `TdHob.MiscountedMemory`).
- A binding's digest is read in either case and always given back in lowercase (`C2paCerts.FromDerOfToDer`,
  `C2paCerts.UppercaseDigestChanges`).
- Decoders leave some slack that encoders never use: who holds the key can seal a blob that ends in an empty chunk
  (`Blobs.EncryptOfDecrypt`, `Blobs.EmptyFinalChunkOpens`), an address may spell its network in a longer form
  (`Hotkey.EncodeOfDecode`, `Hotkey.LongFormAccepted`), and a version INTEGER may have leading zeros
  (`C2paCerts.ToDerOfFromDer`, `C2paCerts.LongVersionAccepted`).

## Model

| member | source | states |
|---|---|---|
| Merkle.RebuildIsExact | protocol/src/kuno_protocol/verified.py:303-327 | For every tree size and index, following a path up the recursive tree gives the root exactly when the leaf is the committed one and the path is its audit path: completeness, soundness, uniqueness and refusal of shorter or longer paths in one statement. |
| Merkle.ClimbIsRebuild | protocol/src/kuno_protocol/verified.py:330-348 | The loop over shifted indices, with its inner loop on the right border, computes what recursion over the tree does, for every size and every path. |
| Merkle.VerifyInclusion | protocol/src/kuno_protocol/verified.py:330-348 | The iterative check answers yes exactly when the index is in range and the recursive tree authenticates the leaf under the root. |
| Merkle.VerifyAgainstTree | protocol/src/kuno_protocol/verified.py:307-348 | Run against a tree's own root, the iterative check accepts exactly the tree's leaf and the proof `inclusion_proof` gives. |
| Merkle.TreeIs | protocol/src/kuno_protocol/verified.py:303-327 | The tree over 2^k leaves and at most as many more: the root hashes the two sides' roots, left first, and a leaf's path ends with the root of the other side (RFC 9162 section 2.1). |
| Merkle.ProofExists | protocol/src/kuno_protocol/verified.py:317-327 | Exactly the leaves of a tree have an inclusion proof. |
| Openings.ExpectedLayout | protocol/src/kuno_protocol/verified.py:265-270 | The appended slots are the transcript's layout: numbered through, one initial slot and one per further sigma for each stage. |
| Openings.LayoutSlot | protocol/src/kuno_protocol/verified.py:265-270 | Slot i of a layout has index i and belongs to a stage of the transcript. |
| Openings.SlotExactly | protocol/src/kuno_protocol/verified.py:265-270 | The j-th sigma of a stage is the slot behind all sigmas of the stages before it, with that stage, the initial kind for j = 0 only, and that sigma. |
| Openings.BytesOfShape | protocol/src/kuno_protocol/verified.py:87-117 | A tensor takes 2, 4 or 8 bytes by its type for each element of its shape. |
| Openings.StateExactly | protocol/src/kuno_protocol/verified.py:139-169 | Tensors are a latent state exactly when there are some, no two have the same name, and each has as many bytes as its shape takes. |
| Sorting.FirstDifference | protocol/src/kuno_protocol/verified.py:139-149 | Tensors are in order of their names: by the first different character, a prefix first. |
| Openings.StepsAndStages | protocol/src/kuno_protocol/verified.py:390-403 | Denoising slots and stages together make up all leaves, and every stage has at least one denoising slot. |
| Openings.CommitmentExactly | protocol/src/kuno_protocol/verified.py:377-403 | Leaves are committed to exactly when they follow the schedule slot by slot, the salt has 32 bytes and there is a final tensor and a step; the commitment names the root of the salted leaves, the transcript, and the shape and type of the primary tensor. |
| Openings.PrimaryIs | protocol/src/kuno_protocol/verified.py:386-387 | The primary tensor is the first named "video", else the first of all. |
| Openings.RequiredLeaves | protocol/src/kuno_protocol/verified.py:590-593 | The required leaves are, in ascending order, exactly 0, k-1 and k, or all leaves when those are asked for. |
| Openings.HeaderExactly | protocol/src/kuno_protocol/verified.py:596-633 | The header passes exactly when commitment, transcript, job, hardware, schedule, layout, step and salt are the ones that were asked for and committed to. |
| Openings.LeafExactly | protocol/src/kuno_protocol/verified.py:635-651 | A revealed leaf passes exactly when it is the schedule's for its index and its path is hexadecimal and leads to the root. |
| Openings.LastLeafCounts | protocol/src/kuno_protocol/verified.py:635-636 | Of several leaves given for one index the last counts. |
| Openings.LastProofCounts | protocol/src/kuno_protocol/verified.py:635-636 | And of several proofs. |
| Openings.OnlyGiven | protocol/src/kuno_protocol/verified.py:635-641 | Nothing is revealed at an index for which no leaf, or no proof, is given. |
| Openings.DecodedExactly | protocol/src/kuno_protocol/verified.py:645-648 | A path is read exactly when all its entries are hexadecimal, to what they spell. |
| Openings.LatentExactly | protocol/src/kuno_protocol/verified.py:652-665 | A latent passes exactly when it is given, has the tensors of its stage, and is in canonical order what its leaf digests. |
| Openings.AcceptedHolds | protocol/src/kuno_protocol/verified.py:596-665 | Against any commitment, an accepted opening's header holds and the latents around the step are laid out as the transcript says. |
| Openings.ProvenLeafIsCommitted | protocol/src/kuno_protocol/verified.py:635-651 | A leaf of an opening that passes the check under a committed root is the committed leaf, under the committed salt. |
| Openings.AcceptedOpeningIsCommitted | protocol/src/kuno_protocol/verified.py:596-665 | Soundness of an audit: an accepted opening shows the committed transcript and salt, every required leaf is the committed one, and the latents at k-1 and k are, in canonical order, the committed ones. |
| OpeningFrame.OpenSealedOpening | protocol/src/kuno_protocol/verified.py:554-587 | Advancing an offset through the frame yields what the recursive reading of header and records does, with the same refusals. |
| OpeningFrame.SealedOpens | protocol/src/kuno_protocol/verified.py:510-587 | Whatever is sealed opens with the recipient's key to the same header and the same latents in canonical order. |
| OpeningFrame.OpenedIsFramed | protocol/src/kuno_protocol/verified.py:554-587 | What opens is framed so: the magic, the header with its length in four bytes, and the tensors its records describe, with nothing missing or behind, in a box for this key and label; the header names the envelope's job, audit, enclave and step. |
| AuditResponder.HonestOpeningAccepted | worker/src/kuno_worker/audits.py:90-133 | End to end: every item about a retained job that may be answered (not expired, a step of the job, a 32-byte key that is the bound one) is answered, and the answer opens with that key and passes the validator's check, for any step and either choice of leaves. |
| AuditResponder.OpenStepExactly | worker/src/kuno_worker/audits.py:90-133 | The enclave answers an item if and only if the job is retained, the item has not expired, the step is one of the job's, the key has 32 bytes and is the bound one (or none is bound and none required), both latents are stored and well formed, and the header is under 2^32 bytes. |
| AuditResponder.RefusalReason | worker/src/kuno_worker/audits.py:90-107 | A refusal for expiry or a missing job happens exactly for those, and any other gives a reason the item has. |
| AuditResponder.OpeningRevealsOnly | worker/src/kuno_worker/audits.py:108-133 | Unless all leaves are asked for, an opening reveals no leaf but the first and those around the step, and no latent but the two around it. |
| Padding.PadmeOverhead | protocol/src/kuno_protocol/blobs.py:19-26 | Every length fits its bucket, and the padding is at most 15/129 of it, the documented 11.63%. |
| Padding.WorstCaseAt129 | protocol/src/kuno_protocol/blobs.py:19-26 | The bound is reached at 129 bytes. |
| Padding.PadmeMonotone | protocol/src/kuno_protocol/blobs.py:55-65 | A longer input never gets a smaller bucket. |
| Padding.PadmeIdempotent | protocol/src/kuno_protocol/blobs.py:55-65 | A bucket is its own bucket, also when rounding crosses into the next power of two. |
| Padding.PadmeLeastBucket | protocol/src/kuno_protocol/blobs.py:55-65 | The bucket of a length is the least bucket that holds it. |
| Padding.PadmeIsRounded | protocol/src/kuno_protocol/blobs.py:55-65 | A bucket is the next multiple of 2^(E - S), for E the position of the length's highest bit and S the number of bits of E. |
| Blobs.UnpadIsExact | protocol/src/kuno_protocol/blobs.py:97-159 | A padded stream is accepted exactly when it is the padded stream of the plaintext it returns. |
| Blobs.PaddedStreamIs | protocol/src/kuno_protocol/blobs.py:97-100 | A padded stream is the length in eight big-endian bytes, the plaintext, and zeros up to the bucket; every length under 2^64 has one. |
| Blobs.OpenOfSeal | protocol/src/kuno_protocol/blobs.py:113-143 | Opening the chunks undoes sealing them, and the sealed body is one tag per chunk longer than the stream. |
| Blobs.ChunkCountIsCeiling | protocol/src/kuno_protocol/blobs.py:73-79 | A stream has as many chunks as its length over the chunk size, rounded up, and one when it is empty. |
| Blobs.DecryptOfEncrypt | protocol/src/kuno_protocol/blobs.py:103-143 | Whatever is encrypted decrypts to the same plaintext, in both versions and for every chunk size in range. |
| Blobs.SizeOfEncrypted | protocol/src/kuno_protocol/blobs.py:73-79 | The size announced for a blob is its size. |
| Blobs.BlobIs | protocol/src/kuno_protocol/blobs.py:93-124 | A blob is "KUNOB1", version, chunk size and prefix, and then, chunk by chunk, the pieces of its stream sealed under prefix, number and last flag with those 18 bytes as associated data. |
| Blobs.EncryptsExactly | protocol/src/kuno_protocol/blobs.py:103-124 | A plaintext can be encrypted exactly in version 1 or 2, with chunks of 1 byte to 64 MiB and at most 2^32 of them. |
| Blobs.EncryptOfDecrypt | protocol/src/kuno_protocol/blobs.py:127-143 | A blob that decrypts is byte for byte the encryption of its plaintext if and only if its body does not end in an empty chunk. |
| Blobs.EmptyFinalChunkOpens | protocol/src/kuno_protocol/blobs.py:127-143 | There is such a blob: it opens, and sealing its plaintext again gives another one. |
| Blobs.OpensOnlySealed | protocol/src/kuno_protocol/blobs.py:9-18 | Where under a header only the chunks of one stream were sealed, nothing but the whole sealed stream opens: a body cut at a chunk boundary, reordered or extended does not. |
| Blobs.OnlySealedBlobsOpen | protocol/src/kuno_protocol/blobs.py:9-18 | Under one key, with prefixes that never repeat, a blob opens exactly when it is byte for byte one that was sealed, and it opens to what was sealed: no truncated, reordered, extended or relabelled blob is accepted. |
| Blobs.NextUnderKey | protocol/src/kuno_protocol/blobs.py:9-18 | Calls that go through with prefixes not drawn before meet its assumption about one key, one after another. |
| SealedPayload.UnpadIsExact | protocol/src/kuno_protocol/sealed_payload.py:62-97 | A plaintext yields some JSON exactly when it is that JSON's padded form, or is itself a version 1 request. |
| SealedPayload.PaddedPayloadIs | protocol/src/kuno_protocol/sealed_payload.py:49-66 | A padded request is a 2, the length in four big-endian bytes, the JSON and zeros, of the least size among 4 KiB and its doublings that holds them; exactly JSON of at most 256 KiB less five bytes has one. |
| SealedPayload.VersionExactly | protocol/src/kuno_protocol/sealed_payload.py:68-74 | A request is version 1 when it starts with "{" or JSON whitespace, version 2 when its first byte is 2, and else neither. |
| SealedPayload.SevenSizes | protocol/src/kuno_protocol/sealed_payload.py:13-17 | Only seven sizes ever leave the sender: 4 KiB doubled at most six times. |
| SealedPayload.BucketBounds | protocol/src/kuno_protocol/sealed_payload.py:49-50 | A framed length fits its bucket, and above the floor it fills more than half of it. |
| Digits.BigEndian | protocol/src/kuno_protocol/blobs.py:93-100 | Lengths and chunk numbers are read big-endian: each further byte counts 256 times less. |
| PlanFit.SnapIsNearest | protocol/src/kuno_protocol/plans.py:754-760 | The snapped duration is on the grid between the shortest and the longest shot, and no such duration is nearer. |
| PlanFit.SnapTies | protocol/src/kuno_protocol/plans.py:754-760 | Of two grid durations that are equally near, the longer one is taken. |
| PlanFit.GridFloorIsLast | protocol/src/kuno_protocol/plans.py:835-838 | The longest shot under a cap is the last grid duration not above it. |
| PlanFit.RoundIsNearest | protocol/src/kuno_protocol/profiles.py:450-452 | Rounding gives a nearest integer, and the even one of two. |
| PlanFit.FramesOnGrid | protocol/src/kuno_protocol/profiles.py:450-452 | A rendered clip has 8 k + 1 frames, for the k from 1 on that is nearest to an eighth of the frames asked for. |
| PlanFit.FramesCounted | protocol/src/kuno_protocol/profiles.py:455-467 | A storyboard's frames are those of all its shots as rendered, less 8 n - 7 for each shot that is joined to the one before, n being the latent frames they share. |
| PlanFit.WholeSecondFrames | protocol/src/kuno_protocol/profiles.py:450-452 | At 24 fps on whole seconds, k grid steps add exactly 24 k frames to a shot. |
| PlanFit.FramesPerStep | protocol/src/kuno_protocol/profiles.py:455-467 | So each grid step adds 24 frames to the storyboard, whichever shot takes it and whatever the joins. |
| PlanFit.Lengthen | protocol/src/kuno_protocol/plans.py:788-794 | Lengthening ends not short or with no movable shot that can grow, leaves the others alone, and took each step at the shortest shot, the first on ties. |
| PlanFit.Shorten | protocol/src/kuno_protocol/plans.py:795-805 | Shortening ends not long, with no movable shot that can shrink, or one step before it would go too short, and took each step at the longest shot, the first on ties. |
| PlanFit.Fit | protocol/src/kuno_protocol/plans.py:763-823 | The fit keeps joins and the shots that may not move, puts every movable shot on the grid within the limits, and is complete: at 24 fps on whole seconds, if the frames of some assignment, joins taken off, last within half a second of the target and within the ceiling, those of the result do. |
| JsonRepair.DropTrailingCommas | protocol/src/kuno_protocol/plans.py:430-449 | The scan drops exactly the commas outside strings that only whitespace separates from a closing bracket. |
| JsonRepair.ObjectEnd | protocol/src/kuno_protocol/plans.py:452-472 | The scan stops behind the first bracket outside strings that closes the first open one, or nowhere. |
| JsonRepair.EndExactly | protocol/src/kuno_protocol/plans.py:452-472 | The end that is found is behind the first closing bracket outside strings up to which as many are closed as opened. |
| JsonRepair.StateExactly | protocol/src/kuno_protocol/plans.py:430-472 | The scan is inside a string exactly when the last unescaped quote opened one, a character being escaped exactly behind an odd number of backslashes. |
| JsonRepair.DepthExactly | protocol/src/kuno_protocol/plans.py:452-472 | The depth is the number of brackets opened outside strings less those closed there. |
| JsonRepair.TrailingExactly | protocol/src/kuno_protocol/plans.py:430-449 | A comma is dropped exactly when it is outside strings and, but for whitespace, a closing bracket is next. |
| JsonRepair.FixExactly | protocol/src/kuno_protocol/plans.py:415-427 | Commas are dropped first; else the object is reopened where a comma or a quote follows it, with a comma put in before a quote, and cut where anything else does; no other text is changed. |
| JsonRepair.KeptScansAlike | protocol/src/kuno_protocol/plans.py:430-472 | Dropping those commas changes neither the string state nor the depth at any kept position. |
| JsonRepair.CleanThenMatch | protocol/src/kuno_protocol/plans.py:415-472 | Cleaning and then matching finds the image of the same closing bracket, and none where there was none. |
| JsonRepair.CommaFixShortens | protocol/src/kuno_protocol/plans.py:415-427 | The comma fix shortens the text. |
| JsonRepair.ReopenFixDefers | protocol/src/kuno_protocol/plans.py:415-427 | The reopening fix removes the bracket that closed the object early: nothing closes it up to that place any more, and the text is no longer. |
| JsonRepair.CutFixCloses | protocol/src/kuno_protocol/plans.py:415-427 | The cutting fix leaves a proper prefix that its own last bracket closes. |
| JsonRepair.FixProgress | protocol/src/kuno_protocol/plans.py:415-427 | Every fix shortens the text or, at the same length, leaves less of it behind the bracket that closes the object. |
| JsonRepair.Fixes | protocol/src/kuno_protocol/plans.py:387-408 | Without any cap on attempts, fix after fix comes to an end for every text, at one that has no fix. |
| JsonRepair.ParseObject | protocol/src/kuno_protocol/plans.py:387-408 | The loop returns the first of the successively fixed texts that parses, with at most three fixes, or gives up when none of them does. |
| Capacity.PrunedKeepsAgreement | validator/src/kuno_validator/capacity.py:68-83 | Pruning keeps tracked runs and unpruned ones in agreement for every window that starts no earlier than the one pruned to. |
| Capacity.PrunedIsRecent | validator/src/kuno_validator/capacity.py:68-83 | Pruning keeps only runs that last into the horizon and stretches that end inside the window. |
| Capacity.RunsCreditLog | validator/src/kuno_validator/capacity.py:7-14 | The credit of the runs of a log is the sum, over its stretches, of the clipped and split time of those that lie in an unbroken series of checks spanning the least uptime. |
| Capacity.SeriesCredit | validator/src/kuno_validator/capacity.py:85-104 | An unbroken series of checks that spans the least uptime is credited, over all families together, exactly its seconds inside the window, and one that spans the window the whole window. |
| Capacity.EvenSplit | validator/src/kuno_validator/capacity.py:101-103 | Families that every check serves equally often are credited alike, and one that none serves nothing. |
| Capacity.ShareOfStretch | validator/src/kuno_validator/capacity.py:98-104 | Of a stretch whose n families name a family k times, that family is credited k times an n-th of the seconds. |
| Capacity.NoSeriesNoCredit | validator/src/kuno_validator/capacity.py:54-59 | A stretch that lies in no series of checks without a longer gap than allowed that spans the least uptime is credited nothing. |
| Capacity.TrackerRefinesLog | validator/src/kuno_validator/capacity.py:46-104 | Over every run of rounds with a clock that does not go back, the tracker's answer for a GPU is the one read off its raw check times. |
| Capacity.TrackedSeries | validator/src/kuno_validator/capacity.py:46-104 | A tracker that saw such a series of a GPU credits it exactly those seconds, after any merging and pruning. |
| Capacity.MinerRefinesLog | validator/src/kuno_validator/capacity.py:85-104 | A miner's tracked credit in a family is what the raw logs of all GPUs ever seen for it say. |
| Capacity.PruningUnobservable | validator/src/kuno_validator/capacity.py:68-83 | Two trackers that saw the same checks and pruned to different windows give the same later answers. |
| Capacity.SharesAddUp | validator/src/kuno_validator/capacity.py:101-103 | A stretch is split over its families without gain, and without loss when all of them are counted. |
| Capacity.GpuWithinWindow | validator/src/kuno_validator/capacity.py:85-104 | One GPU is never credited more than the window, over all families together. |
| Capacity.ServedIsUnion | validator/src/kuno_validator/capacity.py:49-51 | A round checks exactly the GPUs some enclave showed, each with the union of the profiles served. |
| Capacity.LogGrows | validator/src/kuno_validator/capacity.py:46-66 | A round later than all before adds its check, with the profiles served, to the log of each GPU it proved, and to no other. |
| Capacity.CapacityTracker.Record | validator/src/kuno_validator/capacity.py:46-66 | A round changes the tracker's runs to those after the history with this round added. |
| Capacity.CapacityTracker.Prune | validator/src/kuno_validator/capacity.py:68-83 | Pruning equals a round without checks, and prunes each GPU's runs. |
| Capacity.CapacityTracker.GpuSeconds | validator/src/kuno_validator/capacity.py:85-104 | Every entry is positive and every miner's and family's amount is the sum over its tracked GPUs, which is what the raw logs say for windows not pruned away. |
| Ledger.BilledIgnoresClaims | validator/src/kuno_validator/ledger.py:3-8 | Whatever lengths miners claim in their receipts, the same rows verify, the others are dropped for the same reasons, and every delivery bills the same miner for the same seconds. |
| Ledger.EntryVerifies | validator/src/kuno_validator/ledger.py:176-222 | A succeeded row is accepted if and only if its receipt is well formed and signed with the key of a known enclave that a miner registered, names the row's job, profile and enclave and that miner, for a known profile, and the request is usable: params that are the signed ones, or the row's own length. |
| Ledger.EntryExactly | validator/src/kuno_validator/ledger.py:79-261 | What is accepted bills the length asked for, nothing for a plan, and is credited if and only if the reported length is within half a second below it and half a second above it or its rendered frames, or a plan's shots, length and GPU time are within their limits; it is flagged exactly otherwise. |
| Ledger.DropReason | validator/src/kuno_validator/ledger.py:176-222 | The reason a row is dropped for is one it gives. |
| Ledger.SurvivesExactly | validator/src/kuno_validator/ledger.py:141-163 | A row survives exactly when it is the first of its job and failed, or succeeded and verifies. |
| Ledger.FlagsExactly | validator/src/kuno_validator/ledger.py:264-282 | A miner's flags are those of its own deliveries, for their numbers or for repeating its own output, and no others. |
| Ledger.MarkReplays | validator/src/kuno_validator/ledger.py:264-282 | The loop marks every delivery, in order of delivery, by the first delivery of the same output, and lists flags and penalties in that order. |
| Ledger.AuditLedger | validator/src/kuno_validator/ledger.py:134-173 | The audit's entries are the failed rows and the marked deliveries in order of delivery, no job twice and no output credited twice; its counts, flags and penalties are those of the first rows of each job. |
| Ledger.EntriesOnce | validator/src/kuno_validator/ledger.py:141-163 | Each job id survives at most once, whatever rows arrive. |
| Ledger.CreditExactly | validator/src/kuno_validator/ledger.py:176-282 | Whatever rows arrive, a surviving entry is credited exactly when its own numbers, read off its row and receipt, earn it and no surviving entry for the same output is less by finish time and job id. |
| Ledger.CreditedOnce | validator/src/kuno_validator/ledger.py:264-282 | Whatever rows arrive, at most one surviving entry of an output is credited. |
| Ledger.EarliestCredited | validator/src/kuno_validator/ledger.py:18-24 | Some surviving entry of an output is credited if and only if the earliest one's own numbers check out. |
| Ledger.EarliestNotCredited | validator/src/kuno_validator/ledger.py:18-24 | A ledger of two signed deliveries of one output, the earlier with a length out of bounds: both survive and neither is credited, though the later one earned it. |
| Ledger.PenaltyExactly | validator/src/kuno_validator/ledger.py:264-282 | Whatever rows arrive, a miner is penalised exactly when it has a surviving entry for an output whose earliest surviving entry is another miner's. |
| Ledger.RowOrderIsIrrelevant | validator/src/kuno_validator/ledger.py:134-173 | Permuting rows of different jobs changes no entry, credit, flag, penalty or count. |
| Emissions.PartsSumToOne | validator/src/kuno_validator/scoring.py:232-247 | A family in use is split over the eligible miners without gain or loss, for job pay alone, capacity alone and every blend. |
| Emissions.EmissionConserved | validator/src/kuno_validator/scoring.py:224-248 | The scores of all miners sum to 1 when a family is in use and to 0 otherwise, over every mix of job pay, capacity and split, also when the split gives nothing to the families in use. |
| Emissions.FamilyPays | validator/src/kuno_validator/scoring.py:229-247 | A family in use pays over all miners its own entry of the split over the sum of the entries of the families in use, negative and missing ones counting as 0, or an equal part when that sum is 0. |
| Emissions.ScoreIsReceived | validator/src/kuno_validator/scoring.py:224-247 | An eligible miner scores the sum of what the families in use pay it. |
| Emissions.PartIsBlend | validator/src/kuno_validator/scoring.py:232-247 | Where there is verified work and capacity, the capacity share times the utilization is paid by capacity and the rest by work, and where there is only one of them all of it is paid by that. |
| Emissions.UtilizationIs | validator/src/kuno_validator/scoring.py:94-106 | The utilization is the verified GPU-seconds over the target for the window, at most 1. |
| Emissions.IdleCapacity | validator/src/kuno_validator/scoring.py:94-106 | Without verified time or a window nothing is scaled, and without a target or a window nothing is utilized. |
| Emissions.ScoresNonNegative | validator/src/kuno_validator/scoring.py:205-248 | No score is negative, and a gated miner's is 0. |
| Emissions.WithoutCapacity | validator/src/kuno_validator/scoring.py:216-236 | Without capacity credit a score is exactly the split-weighted sum of the miner's fractions of the work in the families in use. |
| Emissions.ScoreFamilies | validator/src/kuno_validator/scoring.py:224-247 | The loops give every eligible miner the sum of its parts weighted by the split, every other miner 0, and each paying family its blend; no division is by zero. |
| Scoring.TallyWork | validator/src/kuno_validator/scoring.py:183-198 | The tally holds, for each miner and family, the sum of VCU times tier rate over its credited paid jobs in the window. |
| Scoring.TallyServed | validator/src/kuno_validator/scoring.py:189-195 | A miner serves a family exactly when it has a credited confidential-tier job of it other than a plan in the window. |
| Scoring.TallyCounts | validator/src/kuno_validator/scoring.py:183-200 | The tally counts a miner's succeeded jobs in the window and those that failed by its fault. |
| Scoring.TallyUnpaid | validator/src/kuno_validator/scoring.py:193-199 | And its credited jobs that no customer paid for. |
| Scoring.EligibleExactly | validator/src/kuno_validator/scoring.py:202-214 | A miner is eligible exactly when it is attested, has no penalty, and with the least number of jobs or more succeeded in at least the least share of them. |
| Scoring.GateCapacity | validator/src/kuno_validator/scoring.py:251-287 | Only ungated miners, enabled families with a target and served families are credited; each family's total is the sum of its credit; every credit is scaled by the family's scale. |
| Scoring.CreditedExactly | validator/src/kuno_validator/scoring.py:251-276 | A miner is credited capacity in a family exactly when it passes the gates, has verified seconds in it and served it, and the family is enabled and has a target. |
| Scoring.FamiliesExactly | validator/src/kuno_validator/scoring.py:214-223 | The families a round pays are exactly the enabled ones in which some eligible miner has paid work or credited capacity. |
| Scoring.ScaleCaps | validator/src/kuno_validator/scoring.py:98-101 | Scaled GPU-seconds are the smaller of what was verified and the target over the window. |
| Scoring.CreditWithinTarget | validator/src/kuno_validator/scoring.py:251-287 | The capacity credited in a family after scaling is the smaller of its gated GPU-seconds and the target over the window. |
| Scoring.ComputeScores | validator/src/kuno_validator/scoring.py:166-248 | Every miner's score is its score in the emission of the round's gated tally and capacity over exactly the families in use; no score is negative, every gated miner's is 0, and the scores sum to 1 when a family is in use, else to 0. |
| Scoring.VcuOnly | validator/src/kuno_validator/scoring.py:216-222 | With a capacity share of 0 every score is exactly the VCU score, and the one of the same round without any verified GPU time. |
| Scoring.Normalize | validator/src/kuno_validator/scoring.py:329-333 | Nothing is weighted when nothing scores; otherwise exactly the positive scores are, in proportion, with weights that sum to 1, and scores that already sum to 1 are kept as they are. |
| Ranking.RankResults | validator/src/kuno_validator/turbo.py:335-341 | The insertion loop builds the ranking that takes submissions in commit order, each at the first place whose holder it beats. |
| Ranking.RankingInvariant | validator/src/kuno_validator/turbo.py:335-341 | The ranking holds the same submissions, none sits below one it beats by more than the margin, and a later commitment ranks above an earlier one only if it is strictly faster. |
| Ranking.RankedInvariant | validator/src/kuno_validator/turbo.py:338-340 | The same two properties hold after every insertion. |
| Ranking.TwoRanked | validator/src/kuno_validator/turbo.py:335-341 | Of two submissions the later commitment ranks first exactly when its speed plus the margin is still less. |
| Ranking.DocumentedRule | protocol/src/kuno_protocol/turbo.py:178-185 | For submissions with different commitments, the documented rule, that a later commitment above an earlier one is faster by more than the margin, holds of the ranking if and only if no three of them, in commit order, are such that the third beats the first but not the second, and the second not the first. |
| Ranking.DocumentedRuleFails | protocol/src/kuno_protocol/turbo.py:178-185 | Speeds 10, 9.8 and 9.6 with a margin of 3% break it. |
| Shares.SharesSumToOne | validator/src/kuno_validator/turbo.py:358-366 | For ties of any shape the shares sum to 1 when the occupied places have a positive sum, and are all 0 otherwise. |
| Shares.TiedShareEqually | validator/src/kuno_validator/turbo.py:350-362 | Any two members of a tie get equal shares. |
| Shares.SharesFall | validator/src/kuno_validator/turbo.py:344-366 | Shares do not rise with rank whenever place shares do not. |
| Shares.PlacesFall | protocol/src/kuno_protocol/turbo.py:188-211 | Place shares never rise, however many places there are, exactly when the curve is exponential or a podium listed in falling order. |
| Shares.PlacesExactly | protocol/src/kuno_protocol/turbo.py:207-211 | A podium pays each place its share and further places nothing; an exponential curve pays 1 to the first place and each further one, up to its last, the decay times the place before. |
| Shares.TieGroups | validator/src/kuno_validator/turbo.py:350-357 | The groups are the maximal ties of the ranking, one after another, from first place to last. |
| Shares.TiedExactly | validator/src/kuno_validator/turbo.py:350-357 | Two submissions tie exactly when they commit in the same block and neither is slower by more than the margin. |
| Shares.TiesJoin | validator/src/kuno_validator/turbo.py:350-357 | Two places share exactly when every neighbouring two from one to the other tie. |
| Shares.AssignShares | validator/src/kuno_validator/turbo.py:344-366 | Every submission gets its rank and the normalised mean of the place shares of its tie; under an accepted curve that falls, shares do not rise with rank and, when anyone is eligible, sum to 1. |
| Shares.SmoothedWeights | validator/src/kuno_validator/turbo.py:369-378 | Weights are proportional to the mean share over the last ended windows, missing ones counting as zero, hold exactly the hotkeys with a positive mean, and sum to 1 when there are any. |
| Shares.SmoothedAddsUp | validator/src/kuno_validator/turbo.py:369-378 | The mean is the sum over the windows of their shares divided by the number of windows, and a window without a record of the hotkey adds nothing. |
| Shares.LastExactly | validator/src/kuno_validator/turbo.py:369-378 | The windows averaged are the last ones, as many as asked for or all. |
| RateDerivation.FitLineIsBest | protocol/src/kuno_protocol/rate_derivation.py:200-209 | No line with a slope of at least 0 has a smaller squared error than the one fitted, in the free case, the clamped one and when every h is the same. |
| RateDerivation.RatioIsBest | protocol/src/kuno_protocol/rate_derivation.py:212-215 | No multiplier has a smaller squared error, and there is none exactly when all have the same. |
| RateDerivation.JointSlopeIsBest | protocol/src/kuno_protocol/rate_derivation.py:257-265 | No slope of at least 0 has a smaller squared error over all default-rate cells of the fitted resolutions, short clips included. |
| RateDerivation.JointSlopeExists | protocol/src/kuno_protocol/rate_derivation.py:257-265 | There is a slope exactly when some cell is longer than the base. |
| RateDerivation.SlopeErrorAdds | protocol/src/kuno_protocol/rate_derivation.py:257-265 | The error adds up the squares of what each cell's VCU over its weight is off 1 + s h, h being its seconds beyond the base. |
| TdHob.MemoryMap.Accept | image/cvm/measure.py:260-274 | Accepting an interval replaces the ranges by their pieces outside it and the accepted interval, in order of address. |
| TdHob.AcceptAllIsLayout | image/cvm/measure.py:256-283 | After all sections are accepted, memory is laid out as the sections in address order prescribe. |
| TdHob.MeasuredExactly | image/cvm/measure.py:276-283 | The sections measured are the non-empty ones of the two kinds. |
| TdHob.BaseExactly | image/cvm/measure.py:276-283 | The base address is that of the last TD HOB section, or the default without one. |
| TdHob.AcceptedMap | image/cvm/measure.py:256-283 | After all sections are accepted the ranges are in order, do not overlap and cover memory from 0 to its size without a gap, and an address is in an accepted range exactly when a section holds it. |
| TdHob.OrderIsIrrelevant | image/cvm/measure.py:256-283 | The order of the sections makes no difference. |
| TdHob.MeasureTdHob | image/cvm/measure.py:256-300 | The loops emit the resources of the final ranges and the end address that follows from their number. |
| TdHob.EmittedLast | image/cvm/measure.py:285-299 | Behind the resources of the other ranges, the last range is emitted as unaccepted up to the end of memory or, from 2.75 GiB on, up to 2 GiB and from 4 GiB on. |
| TdHob.EmittedOnlySections | image/cvm/measure.py:285-299 | Nothing but a section is emitted as accepted. |
| TdHob.EmittedTotal | image/cvm/measure.py:289-299 | The emitted lengths sum to the memory size if and only if memory is below the split size, or the last section ends at or below 2 GiB, or starts there when it reaches the end of memory. |
| TdHob.MiscountedMemory | image/cvm/measure.py:289-299 | With 4 GiB of memory and one section at 2.25 GiB the emitted lengths do not sum to the memory size. |
| TdHob.EmittedAccepted | image/cvm/measure.py:289-299 | A section is emitted as accepted memory if and only if it does not end at the end of memory. |
| TdHob.LastSectionUnaccepted | image/cvm/measure.py:289-299 | A section that fills the end of memory is not emitted as accepted. |
| SetupHeader.PatchKernel | image/cvm/measure.py:392-431 | Overwriting the loader's fields step by step gives the patched image, with the same refusals. |
| SetupHeader.PatchedFields | image/cvm/measure.py:392-414 | The loader's identity, heap flag and end, and the command line's address are written to the fields of the boot protocol the image names. |
| SetupHeader.PatchedOnly | image/cvm/measure.py:392-414 | No other byte changes. |
| SetupHeader.PatchesExactly | image/cvm/measure.py:392-430 | A kernel of 4 KiB or more is patched unless an initrd meets a protocol before 2.00 or does not end below what the header and the memory less the ACPI data allow. |
| SetupHeader.NormalizeSetupHeader | image/cvm/measure.py:435-449 | Overwriting each listed field with zeros gives the normalized image, with the same refusals. |
| SetupHeader.NormalizedExactly | image/cvm/measure.py:435-449 | Exactly a bzImage of boot protocol 2.09 or later is normalized: the loader's fields become 0, the heap flag is cleared, and nothing else changes. |
| SetupHeader.NormalizeCancelsPatch | image/cvm/measure.py:392-449 | Normalising a patched kernel gives the normalised kernel, for every kernel, initrd and memory size for which patching does not raise. |
| SetupHeader.InitrdPlacement | image/cvm/measure.py:415-430 | The initrd address read back from the image is page aligned, and the initrd ends below memory less the ACPI data. |
| SetupHeader.InitrdHighest | image/cvm/measure.py:415-430 | It is the highest such page: one page more would reach beyond what the header or the memory below the ACPI data allows. |
| SetupHeader.MemoryBelow | image/cvm/measure.py:421-422 | Below 4 GiB there is all memory of a machine under 2.75 GiB, and 2 GiB of a larger one. |
| Hotkey.Decode58OfEncode58 | protocol/src/kuno_protocol/hotkey.py:37-53 | Decoding undoes encoding for every byte string, leading zeros included. |
| Hotkey.Encode58OfDecode58 | protocol/src/kuno_protocol/hotkey.py:37-53 | Encoding undoes decoding for every text over the alphabet, leading ones included, and no other text decodes. |
| Hotkey.B58Decode | protocol/src/kuno_protocol/hotkey.py:37-45 | The loop over characters computes the positional value as minimal bytes behind one zero byte per leading one. |
| Hotkey.B58Encode | protocol/src/kuno_protocol/hotkey.py:48-53 | The division loop prints the minimal digits behind one "1" per leading zero byte. |
| Hotkey.SameNumber | protocol/src/kuno_protocol/hotkey.py:37-53 | The text spells in base 58 the big-endian number of the bytes, with as many leading ones as there are leading zero bytes. |
| Hotkey.AddressExactly | protocol/src/kuno_protocol/hotkey.py:77-85 | An address is the text of network bytes, key and the two check bytes of both, the network in one byte below 64 and in two from there; exactly 32-byte keys and networks that fit 16 bits have one. |
| Hotkey.OrOfBits | protocol/src/kuno_protocol/hotkey.py:77-85 | The two bits shared by the network's high byte and low bits are or-ed. |
| Hotkey.DecodeOfEncode | protocol/src/kuno_protocol/hotkey.py:60-85 | An encoded key decodes for its network if and only if the network is below 16384, and decodes without a network always. |
| Hotkey.EncodeOfDecode | protocol/src/kuno_protocol/hotkey.py:60-85 | An accepted address is the encoder's own text if and only if its network prefix is in canonical form. |
| Hotkey.LongFormAccepted | protocol/src/kuno_protocol/hotkey.py:60-85 | Every key has an address that decodes for network 0 and is not the encoder's: network 0 in two bytes. |
| C2paCerts.ReadOfWrite | protocol/src/kuno_protocol/c2pa_certs.py:60-97 | The reader takes back every element written, whatever follows it. |
| C2paCerts.WriteOfRead | protocol/src/kuno_protocol/c2pa_certs.py:77-97 | The reader accepts only the length octets the writer writes (X.690 section 10.1). |
| C2paCerts.ReadAll | protocol/src/kuno_protocol/c2pa_certs.py:100-105 | The offset loop reads the same elements as recursion over the data, with the same refusals. |
| C2paCerts.ItemsAreExact | protocol/src/kuno_protocol/c2pa_certs.py:77-105 | A byte string reads as a list of elements exactly when it is what writing that list gives. |
| C2paCerts.BindingIs | protocol/src/kuno_protocol/c2pa_certs.py:126-139 | A version 1 binding is written as one sequence of the version, the enclave id, the 32 digest bytes, the image digest and the sequence of profiles, each with its tag and length; exactly a digest of 32 bytes and a version from 0 on has an encoding. |
| C2paCerts.ShortLengths | protocol/src/kuno_protocol/c2pa_certs.py:60-64 | Lengths below 128 are one octet, and below 65536 one or two behind their count. |
| C2paCerts.FromDerOfToDer | protocol/src/kuno_protocol/c2pa_certs.py:126-159 | A written binding reads back as itself if and only if its version is 1 and its digest is lowercase hexadecimal. |
| C2paCerts.UppercaseDigestChanges | protocol/src/kuno_protocol/c2pa_certs.py:126-159 | A version 1 binding with an uppercase digest is written and does not read back as itself. |
| HexText.ToHexOfFromHex | protocol/src/kuno_protocol/c2pa_certs.py:126-159 | A digest text that is read is given back unchanged if and only if it consists of lowercase hexadecimal digits. |
| HexText.HexDigits | protocol/src/kuno_protocol/c2pa_certs.py:126-127 | The hexadecimal digits are 0 to 9 and a to f in either case, with their values. |
| HexText.OnlySpaceSkipped | protocol/src/kuno_protocol/c2pa_certs.py:126-127 | Between pairs of digits ASCII whitespace is skipped, and nothing else. |
| C2paCerts.ToDerOfFromDer | protocol/src/kuno_protocol/c2pa_certs.py:126-159 | An accepted extension is byte for byte the encoder's output if and only if its version is the one-byte INTEGER 1. |
| C2paCerts.LongVersionAccepted | protocol/src/kuno_protocol/c2pa_certs.py:126-159 | Every version 1 binding with a lowercase digest has an accepted encoding that is not the encoder's: the version as the octets 0 and 1. |

## Left out

- Cryptography: hashes, signatures, the AEAD and the sealed box are ideal datatypes or parameters; BLAKE2b in SS58 and UTF-8 validity in the DER reader are parameters.
- Blobs: deriving a blob's key from its label is not modelled; the theorems are about one key and all that was sealed under it.
- JSON: an opening's header is encoded by a pair of functions that round-trip; canonical JSON, pydantic parsing and the hexadecimal or base64 text in an opening are not modelled beyond whether a text is valid.
- Floating point: reals are exact, so rounding to a number of digits is the identity on the plan grid and is left out of the fitted rates; the explicit epsilons of the plan fit are kept.
- OpeningFrame: tensors are flat byte strings with a shape and a type name; their contents are not interpreted.
- AuditResponder: the retention store is the pair of latents it returns or the error it raises; the replayers that use an opening are not modelled.
- PlanFit: 17n + 5 frame counts of the other model family, the texts of repair notes, and the planner's prompts and validation are not modelled; completeness is claimed where the documentation does, at 24 fps on whole seconds.
- JsonRepair: parsing itself is a parameter; finding the object in a reply and the sentence that describes a repair are not modelled.
- Capacity: runs are keyed by the pair of hotkey and GPU instead of nested dictionaries, a set of profile ids stands for its sorted list, and dictionaries are visited in an arbitrary order; the state file is not modelled. A clock that goes back is outside the refinement theorem, not outside the tracker.
- Ledger: rows keep the fields the audit reads; flags and penalties are values instead of sentences; the gateway's self-certifying key list is an input.
- Scoring: records are values in a map instead of objects updated in place, so aliasing is not captured; flags, the text of reasons, and the choice of weight inside `job_vcu` are not modelled (an entry carries its VCU).
- Emissions: work, tier rates and VCU are assumed non-negative and the capacity share between 0 and 1, which the switch and the profiles validate.
- Shares: a tie group is the range of places it covers; eligibility, quality and speed statistics are inputs.
- RateDerivation: collecting, pricing and rounding benchmark cells, and the notes about them, are not modelled.
- TdHob: the bytes of the hand-off block and its SHA-384 digest are not modelled, only its resources and end address.
- Admission tiers, regions, media containers, content policy, calibration lookup, hardware conflicts and collateral: easy or data, and nothing above needs them.
- HTTP, the chain, the file system, subprocesses, GPU executors and command lines: input and output with no provable core here.
