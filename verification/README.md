# QORUS consensus: a verified model

This project models the consensus safety core of QORUS, the committee based byzantine fault tolerant protocol of the
crates `qtv-bft`, `qtv-attest`, `qtv-sampler` and `q-vrf`, and proves its main promises in Dafny. `dafny verify
dfyconfig.toml` checks everything.

## What is modelled

* **Attestation layer** (`Attestations`, `Commitments`, `Certificates`, `Verify`, `Verdicts`, `VoteLocks`, `Agreement`,
  `Equivocation`, `ScanWalks`, `EquivocationScan`, `ScanLimits`, `Admission`, `Aggregate`, `VoteLists`,
  `AggregateLimits`). A run is the sequence of signatures that honest attesters make, block votes only through
  `attest_locked`; byzantine attesters sign anything and need no steps. The main theorem, `Agreement.CertificatesAgree`,
  is an induction over runs: two verifying certificates at one height name one block, whatever their views.
  `Equivocation.ConflictIsAccountable` turns any conflict in one view into proofs against more than a third of the
  stake. `Verdicts` says condition by condition which certificates verify and why others do not, and
  `Agreement.SignsNext` exactly what an honest attester may sign next. The builder, a loop of rounds under a budget, is
  shown to satisfy the verifier, and its contract says exactly when it returns a certificate; the scan's says exactly
  whom it flags.
* **Stage one machine** (`BftCore`, `BftSteps`, `BftSafety`, `BftProposals`, `BftSlashing`, `BftLiveness`, `BftRuns`,
  `BftDecidable`, `BftSplit`, `BftMachine`). The steps are functions on states, and every theorem speaks of all runs,
  for every number of validators, heights and views. `BftMachine` is the machine itself, a class whose methods are
  proved to take its fields exactly where the step functions say. Agreement is proved of the votes, not of the guard in
  `finalize` that refuses a second certificate; it needs that committees of decided heights never change, because the
  seed of a height is folded from the certificates below it, and binds them (`BftSafety.SeedBinds`). Liveness is a pair
  of equivalences: `BftLiveness.RunReaches` says exactly which chain a new machine finalizes, and
  `BftDecidable.DecidableOn` exactly when, after any run whatever, a height can still be decided.
* **One-time tree** (`OneTime`). Completeness of openings, and binding as a reduction that computes a hash collision, so
  that nothing is assumed of the hash.
* **Draws and leader race** (`Powers`, `LeaderLog`, `Sortition`, `Draws`). Who is drawn, in exact integers; the
  fixed-point logarithm at every width, with its error bound, monotonicity and freedom from overflow; and the race,
  which the lowest score per weight wins.
* **Validator view** (`CommitteeViews`, `CommitteeFormation`, `CommitmentBuilding`, `QuorumBar`). Active set, caches,
  committees, rotation by exact stake shares, and the bar of stake that no choice of published draws lowers.
* **Beacon** (`Withholding`, `Beacon`). How many seeds a coalition can reach by withholding.

## What is assumed

Assumptions are parameters or preconditions, never axioms.

* Hash and signature functions are arbitrary function values. Collision freedom is never assumed: where it matters,
  theorems end in two different inputs with one hash, computed from what they are given. That honest keys are
  unforgeable is a hypothesis on runs (`Agreement.Backed`), and that a participant's own signatures verify is
  `BftCore.KeysMatch`.
* One trusted commitment a height, with byzantine members holding at most a third of its quorum stake
  (`Agreement.FaultBound`); fewer than a third byzantine members in a drawn committee (`BftSafety.FaultBound`).
* Distinct participant ids, where a theorem speaks of committees as sets (`BftCore.DistinctParticipants`); safety does
  without. Honest blocks and proposals are for heights from 1 on, since the source subtracts one from the height, and a
  release build panics when that wraps (Cargo.toml:14-15).
* Member ids of a commitment strictly ascend, as `CommitmentBuilding.Arranged` shows the constructors leave them. Lists
  of members have fewer than 2^53 entries, as memory enforces; stake sums need no other bound.
* `usize` has 64 bits.

## What the proofs found

* The logarithm is more precise than its width suggests: it falls short of the true one by less than 4 units, for every
  width of at least four bits.
* Saturating stake sums can only refuse: a quorum below two thirds never passes, without any bound on stakes.
* `aggregate` does not compare its height with the block's. With a mismatch it returns a certificate that the verifier
  rejects with HeightMismatch, and with nothing else (`Aggregate.BuiltVerifies`, `AggregateLimits.MismatchIsMade`).
* One budget is shared by all views from the highest down, so a view with a heard supermajority need not be certified:
  four forgeries above it can be enough (`AggregateLimits.FourForgeriesSilence`). It is certified when the different
  candidates in the views tried above it, plus four for each member with a candidate in it, stay within the budget
  (`Aggregate.CountsSuffice`); past that count some list with those counts is refused (`AggregateLimits.PastTheCounts`).
  Views skipped for too few signers cost nothing, whatever candidates they hold (`Aggregate.QuietSuffices`).
* The scan for equivocators can miss a proven one: four forgeries under lower keys use up its failures
  (`ScanLimits.ShieldedInstance`), and a forgery that stands in front of a genuine vote for the same block replaces it
  (`ScanLimits.ShadowedInstance`); and others' forgeries can spend the whole budget (`ScanLimits.FloodedInstance`).
  `EquivocationScan.ScanForEquivocators` says exactly which votes are checked and who is flagged, in every pool.
* `from_view` sums the stake of the committee it is passed before repeats are removed, so a committee naming an id twice
  lowers the bar (`QuorumBar.RepeatedMemberLowersBar`); `QuorumBar.BarHoldsExactly` says exactly when the bar holds.
  `form_committee` never names an id twice, so `verify_registered` is safe from this (`QuorumBar.VerifyRegistered`).
* The overview describes stage one equivocation as two blocks at one height and view; the code of `qtv-bft` compares
  heights only, as its attestations carry no view (crates/qtv-bft/src/equivocation.rs:7-9). The model follows the code.
* Split honest votes stall a height for good (`BftRuns.SplitVotesStall`): one byzantine leader of four, within the fault
  bound, is enough (`BftSplit.OneLeaderStalls`). `BftDecidable.DecidableExactly` gives the exact condition for every
  reachable state: a height can still be decided just when, for some block of that height, the byzantine members, the
  honest ones that voted for it and, if it is valid and was seen or can still be proposed, the honest ones that voted
  for no other block are a quorum. A stable machine can still propose only up to its first honest leader.

## Model

| member | source | states |
|---|---|---|
| `OneTime.DepthOfSlots` | crates/q-vrf/src/onetime.rs:105-114 | For every slot count from 1 to 65536 the padded leaf count is the least power of two that holds the slots, and the depth is its logarithm, so at most 65536 leaves |
| `OneTime.RootFromPath` | crates/q-vrf/src/onetime.rs:116-131 | The loop over the siblings computes the climb to the root that the Merkle theorems are about |
| `OneTime.VerifyMembership` | crates/q-vrf/src/onetime.rs:29-48 | Accepts exactly when the position is below the slot count, the path has the tree depth and the bound climb ends in the root digest |
| `OneTime.New` | crates/q-vrf/src/onetime.rs:147-175 | None exactly for slot counts outside 1..=65536; otherwise the tree is built: the padded leaves below, each layer the pair hashes of the one before, lengths halving to one |
| `OneTime.HashPairs` | crates/q-vrf/src/onetime.rs:160-167 | One layer up: half as many nodes, each the hash of its pair in order |
| `OneTime.Path` | crates/q-vrf/src/onetime.rs:199-210 | None exactly past the slots; otherwise the siblings met from the position to the root, as many as the depth |
| `OneTime.ClimbReachesRoot` | crates/q-vrf/src/onetime.rs:116-131 | From any node of any layer, climbing along the siblings of the tree ends in its single top node |
| `OneTime.OpeningsVerify` | crates/q-vrf/src/onetime.rs:185-210 | Completeness: at every position below the slots of every built tree, the preimage and path it hands out are accepted by its root |
| `OneTime.ClimbBinds` | crates/q-vrf/src/onetime.rs:116-131 | Two climbs of one position and length that reach one node started from one leaf along one path, or exhibit a collision of the node hash |
| `OneTime.RootBinds` | crates/q-vrf/src/onetime.rs:29-59 | Binding by reduction: two accepted openings of one root at one position have the same holder, preimage and path, or a computed pair of different inputs with one hash |
| `OneTime.TreeHasOneOpening` | crates/q-vrf/src/onetime.rs:147-210 | A root made by the tree accepts nothing but its own opening of a slot, or two inputs with one hash are computed from the other opening |
| `OneTime.PreimagesCollide` | crates/q-vrf/src/onetime.rs:75-84 | Equal preimages at different positions, or under different seeds, give two stated inputs with one hash |
| `OneTime.InputsApart` | crates/q-vrf/src/onetime.rs:75-103 | Preimages, leaves, nodes and roots never hash one input, so no node passes for a leaf or a root |
| `LeaderLog.StepInRange` | crates/qtv-sampler/src/sortition.rs:168-175 | The mantissa stays in [2^F, 2^(F+1)) in every round, for every F |
| `LeaderLog.LogErrorBound` | crates/qtv-sampler/src/sortition.rs:159-177 | For every F >= 4 the computed logarithm L satisfies 2^L <= v^(2^F) < 2^(L+4), for every v >= 1 |
| `LeaderLog.FixedLog2Monotone` | crates/qtv-sampler/src/sortition.rs:159-177 | A larger value never has a smaller computed logarithm |
| `LeaderLog.ScoreFits` | crates/qtv-sampler/src/sortition.rs:159-177 | The logarithm of a 64-bit value plus one never passes 64, so the last subtraction does not wrap |
| `LeaderLog.RefineLog2` | crates/qtv-sampler/src/sortition.rs:168-175 | The loop over u128 locals: no square, shift or sum overflows at up to 48 fraction bits, and it computes the logarithm the bounds are about |
| `LeaderLog.NegLog2At` | crates/qtv-sampler/src/sortition.rs:159-177 | The whole integer computation at any width up to 48 is 64 minus that logarithm |
| `LeaderLog.LeaderNegLog2` | crates/qtv-sampler/src/sortition.rs:159-177 | The same from the first eight bytes of an output, at 48 fraction bits |
| `LeaderLog.NegLog2Antitone` | crates/qtv-sampler/src/sortition.rs:159-177 | The score never increases as the draw value grows |
| `LeaderLog.LeaderScoreError` | crates/qtv-sampler/src/sortition.rs:159-177 | With L the value 64 * 2^F minus the score, 2^L <= (value + 1)^(2^F) < 2^(L+4); at F = 48 this is the leader race of the source |
| `Sortition.DrawInputInjective` | crates/qtv-sampler/src/sortition.rs:58-85 | The hashed bytes of a draw determine its domain, preimage, seed and slot, so the committee and leader draws never share an input |
| `Sortition.BoundDrawInputInjective` | crates/qtv-sampler/src/sortition.rs:25-56 | The hashed bytes of a bound draw determine also its holder and registered root |
| `Sortition.ThresholdIsShare` | crates/qtv-sampler/src/sortition.rs:87-97 | Below saturation the threshold is exactly budget * weight / total of the value space, rounded down; it is the whole space exactly when budget * weight reaches the total |
| `Sortition.ThresholdGrows` | crates/qtv-sampler/src/sortition.rs:87-97 | More stake never narrows the draw |
| `Sortition.ExpectedCommitteeBounds` | crates/qtv-sampler/src/sortition.rs:123-137 | The expected committee exceeds neither the budget nor the number of validators, so its cast to 64 bits loses nothing |
| `Draws.ExpectedExactly` | crates/qtv-sampler/src/sortition.rs:123-137 | The expected committee is the sum of the chances to be drawn, min(budget * weight, total) over the total, rounded to the nearest whole number, in saturating sums |
| `Draws.OutputValueIs` | crates/qtv-sampler/src/sortition.rs:15-23 | A draw value is the first eight bytes of the output, the first byte the highest |
| `Draws.SelectedExactly` | crates/qtv-sampler/src/sortition.rs:87-101 | A value is selected exactly when (value + 1) * total <= budget * weight * 2^64 and the total is not zero |
| `Draws.DrawnExactly` | crates/qtv-sampler/src/sortition.rs:263-325 | A draw verifies exactly when the credential opens the slot under the root and, in a full draw, the weight is not zero, or, in a sampled one, the hash of the stated input is selected |
| `Draws.OutputsCollide` | crates/qtv-sampler/src/sortition.rs:58-85 | Equal outputs of draws that differ in preimage, seed, domain or slot give two stated inputs with one hash |
| `Draws.BoundOutputsCollide` | crates/qtv-sampler/src/sortition.rs:25-56 | The same for bound draws, which may also differ in holder or root |
| `Draws.RaceDrawsApart` | crates/qtv-sampler/src/committee.rs:86-100 | So members with different preimages, and one member in two slots or on two seeds, enter the race with different outputs, or two stated inputs collide |
| `Draws.DomainsDiffer` | crates/qtv-sampler/src/sortition.rs:58-85 | The committee draw and the leader draw never hash one input |
| `Sortition.OneDrawPerSlot` | crates/qtv-sampler/src/sortition.rs:263-300 | In every mode, two verified draws of one holder and slot under one root have paths of one length and are the same draw, or two inputs with one hash are computed from them |
| `Sortition.CrossProductFits` | crates/qtv-sampler/src/sortition.rs:179-193 | The cross products of scores and weights stay in u128 |
| `Sortition.PrefersIsStrictTotal` | crates/qtv-sampler/src/sortition.rs:179-193 | The preference is irreflexive, asymmetric, transitive, and total on different ids; weight beats none, the lower score per weight is preferred, and between equals the lower id, zero weights included |
| `Sortition.Race` | crates/qtv-sampler/src/committee.rs:403-422 | The loop returns a member that wins against every other: the lowest score per weight, compared by cross products, then the lowest id; nothing exactly for an empty list or a member without an output |
| `Sortition.LeadAfter` | crates/qtv-sampler/src/committee.rs:403-422 | One turn of the race keeps the leader least among the members seen |
| `Sortition.ElectLeader` | crates/qtv-sampler/src/committee.rs:86-100 | The unbound race elects such a winner, none exactly for an empty committee |
| `Sortition.StakeLeads` | crates/qtv-sampler/src/committee.rs:86-100 | A member with stake leads whenever there is one, and without any the lowest id |
| `Sortition.DrawsDecide` | crates/qtv-sampler/src/committee.rs:86-100 | At equal stake no larger draw value loses, except on equal scores to a lower id; at equal positive scores the larger stake leads |
| `Sortition.ElectionIgnoresOrder` | crates/qtv-sampler/src/committee.rs:86-100 | Whatever order the same members are listed in, the elected leader is the same |
| `Withholding.LowestIsLeast` | crates/qtv-sampler/src/beacon.rs:67-69 | The chosen entry ranks no later than any other |
| `Withholding.OutcomeInReach` | crates/qtv-sampler/src/beacon.rs:67-69 | Whatever part of its entries a coalition publishes, the chosen one is among its entries ahead of every honest one, or the least honest one |
| `Withholding.ReachIsAttained` | crates/qtv-sampler/src/beacon.rs:67-69 | Each of these is chosen for some published part |
| `Beacon.PickInputInjective` | crates/qtv-sampler/src/beacon.rs:54-66 | The ranking hash input determines holder, preimage, seed and slot |
| `Beacon.ChosenIsLowest` | crates/qtv-sampler/src/beacon.rs:67-69 | The chosen reveal has the lowest ranking hash among the published, then the lowest holder |
| `Beacon.BoundInputInjective` | crates/qtv-sampler/src/beacon.rs:70-82 | The hash input of the next seed determines the last seed, the slot and the choice, including none |
| `Beacon.AdvanceBinds` | crates/qtv-sampler/src/beacon.rs:49-85 | Two advances to one seed start from one seed, in one slot, with one choice, or their stated inputs collide |
| `Beacon.BoundIgnoresOrder` | crates/qtv-sampler/src/beacon.rs:49-85 | The next seed depends on which draws are published, one a holder, not on their order |
| `Beacon.WithholdingIsBounded` | crates/qtv-sampler/src/beacon.rs:49-85 | Published parts that give pairwise different seeds number at most k + 1, with k the coalition entries ranking below every honest one |
| `Beacon.WithholdingAttains` | crates/qtv-sampler/src/beacon.rs:49-85 | The bound is attained: any two of the k + 1 choices can be brought about and give different seeds, or the hash collides on the two stated inputs |
| `Beacon.BareIgnoresOrder` | crates/qtv-sampler/src/beacon.rs:97-119 | Without binding, too, order and repetition do not change the next seed |
| `Beacon.BareInputInjective` | crates/qtv-sampler/src/beacon.rs:97-119 | The same for bare preimages |
| `Beacon.BareAdvanceBinds` | crates/qtv-sampler/src/beacon.rs:97-119 | The lowest preimage is chosen, and a bare seed binds its past in the same way |
| `Beacon.BareWithholdingIsBounded` | crates/qtv-sampler/src/beacon.rs:97-119 | Without binding the seeds in reach number at most one more than the withheld preimages below every honest one |
| `CommitteeViews.NewViewIsDistinct` | crates/qtv-sampler/src/committee.rs:129-152 | After the doubled ids are dropped, registered ids are pairwise different |
| `CommitteeViews.RegisteredOnce` | crates/qtv-sampler/src/committee.rs:129-136 | Registered is exactly whoever was given under an id that was given once |
| `CommitteeViews.ActiveAscends` | crates/qtv-sampler/src/committee.rs:227-242 | The active indices strictly ascend, which the binary search needs |
| `CommitteeViews.ActiveExactly` | crates/qtv-sampler/src/committee.rs:227-242 | Active are all that meet the floor, save that a full draw keeps exactly a hundred, and then everyone kept has more weight than whoever is left out, or as much and a lower id |
| `CommitteeViews.EligibleHolds` | crates/qtv-sampler/src/committee.rs:244-252 | The eligible registrations are exactly those whose id is active, each once |
| `CommitteeViews.WeightsFit` | crates/qtv-sampler/src/committee.rs:254-269 | The u128 sums of weights over a list that fits in memory do not overflow |
| `CommitteeViews.CapExactly` | crates/qtv-sampler/src/committee.rs:254-269 | The cap is the floor or, above it, a tenth of the weight that meets the floor, rounded down and capped at 64 bits |
| `CommitteeViews.EffectiveWeightBounds` | crates/qtv-sampler/src/committee.rs:271-279 | Effective weight keeps the order of stakes, exceeds neither the stake nor, in sampled modes, the cap, and vanishes exactly below the floor |
| `CommitteeViews.EffectiveExactly` | crates/qtv-sampler/src/committee.rs:271-279 | Effective weight is zero below the floor, the stake itself in a full draw or below the cap, and else the cap |
| `CommitteeViews.TotalExactly` | crates/qtv-sampler/src/committee.rs:281-287 | The total is the sum of the effective weights of the eligible, capped at 64 bits |
| `CommitteeViews.CommitteeView.constructor` | crates/qtv-sampler/src/committee.rs:129-152 | A new view holds the singly registered ids with default settings and all three caches empty |
| `CommitteeViews.CommitteeView.WithMode` | crates/qtv-sampler/src/committee.rs:162-167 | Changing the mode clears just the caches that depend on it: every cache still equals what recomputing gives |
| `CommitteeViews.CommitteeView.WithBudget` | crates/qtv-sampler/src/committee.rs:202-205 | Changing the budget may keep every cache |
| `CommitteeViews.CommitteeView.WithFloor` | crates/qtv-sampler/src/committee.rs:207-213 | Changing the floor clears all three caches |
| `CommitteeViews.CommitteeView.GetActive` | crates/qtv-sampler/src/committee.rs:227-242 | The cached active set is the recomputed one |
| `CommitteeViews.CommitteeView.GetStakeCap` | crates/qtv-sampler/src/committee.rs:254-269 | The cached stake cap is the recomputed one |
| `CommitteeViews.CommitteeView.GetTotalWeight` | crates/qtv-sampler/src/committee.rs:281-287 | The cached total is the recomputed one |
| `CommitteeFormation.FormCommittee` | crates/qtv-sampler/src/committee.rs:316-368 | Nobody when an id is published twice or more draws than there are eligible validators, inactive ones not counted in a full draw; otherwise exactly the published draws that `admits` accepts are seated, at effective weights, in strictly ascending order of ids |
| `CommitteeFormation.AdmitsExactly` | crates/qtv-sampler/src/committee.rs:295-314 | Admitted is exactly a draw that verifies for an eligible validator with that id, at its effective weight of the total |
| `CommitteeFormation.ElectSlotLeader` | crates/qtv-sampler/src/committee.rs:394-426 | By mode: none in a full draw, the unbound race, or the race on outputs bound to registered roots, with none exactly for an empty committee or an unregistered member |
| `CommitteeFormation.RotationLeader` | crates/qtv-sampler/src/committee.rs:370-392 | None exactly when the eligible validators have no weight; otherwise the first sixteen bytes of the hash of epoch and slot, modulo their weight, fall in the leader's stretch, which follows the weight of all lower ids, and in nobody else's |
| `CommitteeFormation.RotationInputInjective` | crates/qtv-sampler/src/committee.rs:377-383 | The hashed bytes determine the epoch and the slot |
| `CommitteeFormation.SlotsDrawApart` | crates/qtv-sampler/src/committee.rs:370-392 | At any two different slots, of one epoch or two, any two eligible validators with weight are the leaders under some hash |
| `CommitteeFormation.PickIsStretch` | crates/qtv-sampler/src/committee.rs:384-391 | A position falls to an id exactly when it lies in that id's stretch of the line, as long as its weight |
| `CommitteeFormation.RotationShare` | crates/qtv-sampler/src/committee.rs:370-392 | Of all positions below the total, exactly weight(id) select an active id, and none selects any other |
| `Blocks.ToBytesInjective` | crates/qtv-bft/src/block.rs:57-73 | Different blocks have different encodings |
| `Attestations.MessageInjective` | crates/qtv-attest/src/attestation.rs:39-57 | A signed message determines the chain and every part of the subject |
| `Commitments.WeightOkExactly` | crates/qtv-attest/src/verify.rs:159-173 | The saturating weight test passes exactly when three times the signers' true stake exceeds twice the true quorum stake, and twice that stays below u128::MAX: saturation never lets a smaller quorum pass |
| `Commitments.SaturatedSum` | crates/qtv-attest/src/committee.rs:184-189 | A saturating fold is the exact sum capped at u128::MAX |
| `Commitments.StakeUnion` | crates/qtv-attest/src/committee.rs:184-197 | Stake of sets of ids obeys inclusion and exclusion |
| `Commitments.DigestInputInjective` | crates/qtv-attest/src/committee.rs:214-239 | The hashed bytes determine the whole commitment, despite two optional trailing parts |
| `Commitments.DigestBinds` | crates/qtv-attest/src/committee.rs:214-239 | Two commitments with one digest are equal, or their inputs collide |
| `CommitmentBuilding.Arranged` | crates/qtv-attest/src/committee.rs:77-78 | Sorting and removing repeats leaves strictly ascending ids, no more than given, and the first entry given for each id |
| `CommitmentBuilding.HoldsFirstEntries` | crates/qtv-attest/src/committee.rs:70-92 | The constructed commitment finds, for each id, the first entry given for it, or nobody at all when two kept entries share a key |
| `CommitmentBuilding.TotalCovers` | crates/qtv-attest/src/committee.rs:53-68 | A commitment that adds up its own total holds the arranged members, or nobody when keys are shared or the sum overflows, and always passes the verifier's check of the total |
| `CommitmentBuilding.ArrangedKeepsStake` | crates/qtv-attest/src/committee.rs:70-92 | Entries with different ids keep all their stake |
| `QuorumBar.CountsInFull` | crates/qtv-attest/src/committee.rs:122-140 | A registration counts for its full stake in the expected stake exactly when every draw value would select it, and for less otherwise |
| `QuorumBar.ExpectedCoversCertain` | crates/qtv-attest/src/committee.rs:119-140 | The expected stake is at least that of all eligible validators drawn with certainty |
| `QuorumBar.ShareExactly` | crates/qtv-attest/src/committee.rs:126-140 | A registration is expected with stake * budget * weight / total, rounded down, with its whole stake once budget * weight reaches the total, and with nothing at no weight |
| `QuorumBar.ExpectedStakeExactly` | crates/qtv-attest/src/committee.rs:126-142 | The expected stake is the sum of these shares over all eligible validators, as far as 128 bits hold |
| `QuorumBar.FromViewExactly` | crates/qtv-attest/src/committee.rs:94-152 | A commitment exists exactly when every committed id is registered and has a key; with different keys it holds exactly the committed ids, at their registered stake, root, key and effective weight, and with a shared key nobody |
| `QuorumBar.BarIsSet` | crates/qtv-attest/src/committee.rs:94-152 | With distinct keys the quorum stake is the larger of expected and realized stake in sampled modes, and in a full draw the raw stake of all eligible validators, whatever committee is passed |
| `QuorumBar.BarHoldsExactly` | crates/qtv-attest/src/committee.rs:119-151 | For any committee passed, with no shared keys: the quorum stake reaches the expected stake if and only if nobody's stake is counted twice or what is kept suffices by itself |
| `QuorumBar.RepeatedMemberLowersBar` | crates/qtv-attest/src/committee.rs:94-152 | Naming a member twice, whenever it has some but not all of the expected stake, makes a commitment whose quorum stake is below the expected stake |
| `QuorumBar.HalfOfExpected` | crates/qtv-attest/src/committee.rs:119-140 | It happens: of two validators with 2000 each, 4000 expected, naming one twice brings the quorum stake below 4000 |
| `QuorumBar.CreditedIsRegistered` | crates/qtv-attest/src/committee.rs:104-117 | A commitment credits no set of ids with more than its registered stake |
| `QuorumBar.VerifiedBeatsBar` | crates/qtv-attest/src/verify.rs:62-86 | A certificate verified against a view has signers whose registered stake exceeds two thirds of the bar |
| `QuorumBar.ShownExactly` | crates/qtv-attest/src/verify.rs:70-78 | The draws judged are those the certificate shows, or those of its attestations if it shows none |
| `QuorumBar.VerifyRegistered` | crates/qtv-attest/src/verify.rs:62-86 | The whole path from published draws through committee and commitment to the verdict; Verified means the bar, set by the registered validators alone, is beaten |
| `Certificates.SortKeepsMembers` | crates/qtv-attest/src/certificate.rs:40-47 | A certificate lists exactly the given attestations, each as often as it was given, in order of signers |
| `Certificates.AttestersAscend` | crates/qtv-attest/src/certificate.rs:55-60 | The signers of a certificate come in strictly ascending order |
| `Verify.VerifyBody` | crates/qtv-attest/src/verify.rs:89-174 | The loop with its early returns gives the verdict, and the first reason, that the specification gives |
| `Verify.ScanCounts` | crates/qtv-attest/src/verify.rs:121-152 | The scan counts exactly when every attestation is faultless and every first one of a signer is entitled, and then counts each signer once |
| `Verdicts.VerifiedExactly` | crates/qtv-attest/src/verify.rs:89-174 | Verified exactly when all of these hold: committee digest, slot, total weight at least the members' weight, budget in 1..=500, one height, cost at most 1 or u64::MAX, no more attestations than members, each attestation on the one subject in one view under a member's key, each signer drawn, more than two thirds of the seats in sampled modes and at least tau, and more than two thirds of the true quorum stake |
| `Verdicts.RejectedExactly` | crates/qtv-attest/src/verify.rs:89-174 | A reject reason is given exactly when it is the reason of the first check to fail, in the order of header, attestations and quorum |
| `Verify.VerifiedSeats` | crates/qtv-attest/src/verify.rs:153-172 | In sampled modes the signers of a verified certificate are more than two thirds of the seats, whatever threshold the caller gives |
| `Verify.VerifiedAttestation` | crates/qtv-attest/src/verify.rs:122-140 | Each attestation of a verified certificate signs exactly its envelope, under a member's key |
| `Verify.QuorumsIntersect` | crates/qtv-attest/src/verify.rs:159-173 | The common signers of two verified certificates hold more than a third of the quorum stake |
| `VoteLocks.PermittedIsRecorded` | crates/qtv-attest/src/attester.rs:78-109 | Whatever a lock permits it then holds, so it never misses a signature |
| `VoteLocks.VoteLock.Record` | crates/qtv-attest/src/attester.rs:101-109 | The lock moves exactly to lexicographically later or equal heights and views |
| `VoteLocks.AttestLocked` | crates/qtv-attest/src/attester.rs:211-237 | Signs exactly with a credential for the slot and when the lock is empty, of a lower height, on the same block in a view not later, or in a view before that of a verified certificate shown for the block, up to the view signed in; signing records, refusing leaves the lock alone |
| `VoteLocks.PermitsExactly` | crates/qtv-attest/src/attester.rs:78-136 | A lock and a justification permit exactly that |
| `Agreement.SignsFirst` | crates/qtv-attest/src/attester.rs:211-237 | In any run an honest attester may sign anything first |
| `Agreement.SignsNext` | crates/qtv-attest/src/attester.rs:78-136 | In any run what it may sign next is exactly: a later height; at the height of its last signature the same block in a view not earlier; or another block for which it is shown a certificate that verifies in a later view, up to the one it signs in |
| `Agreement.LockCovers` | crates/qtv-attest/src/attester.rs:78-110 | Over every run: after an honest attester has signed, its lock is at that height and view or later |
| `Agreement.ViewsAdvance` | crates/qtv-attest/src/attester.rs:78-110 | Over every run: one attester's votes at a height never go back in view |
| `Agreement.OneBlockPerView` | crates/qtv-attest/src/attester.rs:78-110 | Over every run: an honest attester signs at most one block at a height and view |
| `Agreement.SwitchIsJustified` | crates/qtv-attest/src/attester.rs:78-136 | Over every run: between votes for two blocks at a height lies a vote justified by a certificate of a view after the first |
| `Agreement.HonestInBoth` | crates/qtv-attest/src/verify.rs:120-174 | Under the fault bound, two verified certificates share an honest signer |
| `Agreement.NoLaterConflict` | crates/qtv-attest/src/attester.rs:78-136 | Over every run: no certificate of a later view names another block than an earlier final one |
| `Agreement.CertificatesAgree` | crates/qtv-attest/src/attester.rs:214-236 | Cross-view agreement in every run: two certificates for blocks that verify at one height under the trusted commitment name the same block, whatever their views |
| `Equivocation.ProofIgnoresOrder` | crates/qtv-attest/src/equivocation.rs:43-65 | The same proof, or none, whichever vote comes first |
| `Equivocation.ProofMadeExactly` | crates/qtv-attest/src/equivocation.rs:43-65 | A proof is made exactly from votes on two different blocks by one signer at one height and view, and holds both, the lower encoding first |
| `Equivocation.ProofVerifiesExactly` | crates/qtv-attest/src/equivocation.rs:67-81 | A proof verifies exactly when its votes make a proof of what it names and the key signed both |
| `Equivocation.ProofHoldsExactly` | crates/qtv-attest/src/equivocation.rs:43-81 | A proof made from two votes verifies exactly under a key that signed both |
| `Equivocation.HonestNeverProven` | crates/qtv-attest/src/equivocation.rs:67-81 | In no run does a proof verify against an honest attester |
| `Equivocation.ConflictingExactly` | crates/qtv-attest/src/equivocation.rs:24-41 | A pair is accepted exactly for two different blocks voted on at one height, each by somebody, and by all signers in one view |
| `Equivocation.OffendersExactly` | crates/qtv-attest/src/equivocation.rs:160-193 | Blamed, ascending, are exactly the common signers of two certificates that both verify |
| `Equivocation.ConflictIsAccountable` | crates/qtv-attest/src/equivocation.rs:143-193 | Accountable safety: the offenders are exactly the common signers, in order, hold more than a third of the quorum stake, and for each there are two attestations whose proof is made and verifies |
| `Equivocation.OffendersAreByzantine` | crates/qtv-attest/src/equivocation.rs:160-193 | In every run, whoever is blamed is not honest |
| `EquivocationScan.GroupVotes` | crates/qtv-attest/src/equivocation.rs:90-97 | The buckets hold, for each id, height and view, the first vote for each different block |
| `EquivocationScan.CheckBucket` | crates/qtv-attest/src/equivocation.rs:118-131 | One bucket: goes on exactly while checks are left, fewer than two votes hold and fewer than four of the signer failed, and counts the votes it checked, those that held and those that failed |
| `ScanWalks.AmpleWalk` | crates/qtv-attest/src/equivocation.rs:118-131 | With checks enough for the bucket, two votes hold exactly when the bucket has two genuine ones before the signer's fourth failure; otherwise all its forgeries count, up to four |
| `ScanWalks.WalkIsUnique` | crates/qtv-attest/src/equivocation.rs:97-133 | The pool, the known ids and the signature test determine the walk: which votes are checked under each key, in key order |
| `ScanWalks.WalkWithinLimits` | crates/qtv-attest/src/equivocation.rs:103-131 | No walk makes more than 2000 checks or has more than four of an id fail |
| `ScanWalks.FoundIsProven` | crates/qtv-attest/src/equivocation.rs:117-132 | Whoever a walk finds has two verifying votes for different blocks at one height and view |
| `ScanWalks.EasyFindsAll` | crates/qtv-attest/src/equivocation.rs:97-133 | With genuine votes and at most 1000 equivocators a walk finds exactly them |
| `ScanWalks.AmpleFinds` | crates/qtv-attest/src/equivocation.rs:97-133 | In a pool whose filed votes the budget covers, a walk finds exactly the known ids with two genuine filed votes under one key before their fourth failure in key order |
| `EquivocationScan.ScanKeys` | crates/qtv-attest/src/equivocation.rs:107-133 | The loop over the keys makes exactly the checks of the walk that the pool determines, leaves the tally of failures and budget they give, and finds exactly the ids the walk finds, each once |
| `EquivocationScan.ScanForEquivocators` | crates/qtv-attest/src/equivocation.rs:83-136 | For every pool: flags exactly the ids found on the walk the pool determines, ascending, and makes exactly its checks, so at most 2000 and at most four failures an id; flags only proven equivocators; with genuine votes and at most 1000 equivocators exactly them; and when the budget covers the filed votes exactly the known convicted ids |
| `EquivocationScan.Equivocators` | crates/qtv-attest/src/equivocation.rs:83-136 | The same with the signature check of the attestation layer |
| `ScanLimits.SmallPoolIsAmple` | crates/qtv-attest/src/equivocation.rs:91-104 | No vote is filed twice, so the budget covers every pool of at most 2000 votes and the exact statement applies to it |
| `ScanLimits.FourForgeriesShield` | crates/qtv-attest/src/equivocation.rs:113-131 | Once four forgeries of an id are filed under lower keys, no later key convicts it, whatever is filed there |
| `ScanLimits.ShieldedInstance` | crates/qtv-attest/src/equivocation.rs:83-136 | A pool of six votes with a proven equivocator whom four forgeries under a lower key keep from being flagged |
| `ScanLimits.ShadowedInstance` | crates/qtv-attest/src/equivocation.rs:91-96 | A bucket keeps the first vote for each block: one forgery in front of a genuine vote for the same block keeps a proven equivocator from being flagged |
| `ScanLimits.SpentFindsNobody` | crates/qtv-attest/src/equivocation.rs:107-109 | Once the budget is spent no walk finds anybody else |
| `ScanLimits.FloodedInstance` | crates/qtv-attest/src/equivocation.rs:103-131 | A pool where the forgeries of 500 others spend the whole budget, and a proven equivocator whose own votes are all genuine is not found |
| `Admission.GroupCandidates` | crates/qtv-attest/src/aggregate.rs:124-143 | Each member's bucket keeps its first candidate and then those with new signatures, up to the cap |
| `Admission.AdmitRound` | crates/qtv-attest/src/aggregate.rs:153-186 | One pass over the members: admits only genuine candidates, one a member; it has admitted exactly the members whose first genuine candidate the walk has passed, has made exactly the checks that takes, and stops short only at the cap |
| `Admission.Admit` | crates/qtv-attest/src/aggregate.rs:149-187 | The round loop ends; it admits exactly the members whose first genuine candidate comes within the cap in round order, and makes the checks the buckets take but no more than the cap |
| `Admission.Build` | crates/qtv-attest/src/aggregate.rs:124-187 | Admitted are genuine matching attestations, one a signer; who is admitted, and the number of checks, are given exactly by the list and the cap |
| `Admission.HeardAreAdmitted` | crates/qtv-attest/src/aggregate.rs:149-187 | Four checks for every member with a candidate admit everyone with a genuine attestation among its first four, however much else floods in |
| `Admission.CostIsBounded` | crates/qtv-attest/src/aggregate.rs:149-187 | A list never takes more checks than it holds different candidates: matching attestations told apart by signer and signature |
| `Aggregate.AggregateBudgeted` | crates/qtv-attest/src/aggregate.rs:105-210 | Certifies exactly when the commitment is usable and the members reached within the cap are a supermajority, lists exactly those on their genuine attestations, and makes the checks the list takes but no more than the cap |
| `Aggregate.BuiltVerifies` | crates/qtv-attest/src/aggregate.rs:19-69 | A certificate built from one view is Verified in the same context, or rejected with HeightMismatch, which the builder does not check |
| `Aggregate.SplitByView` | crates/qtv-attest/src/aggregate.rs:35-39 | Grouping by view keeps every attestation, in order, under its view |
| `Aggregate.Aggregate` | crates/qtv-attest/src/aggregate.rs:19-69 | Returns a certificate exactly when some view makes one with the budget that the views tried above it leave, and then the one of the highest such view, with exactly the members reached; the verifier accepts it if the height is the block's; it makes exactly the checks that the views it gets to take, at most four a member over all of them, and none for a target or commitment it refuses |
| `Aggregate.WantedExactly` | crates/qtv-attest/src/aggregate.rs:124-137 | A candidate is exactly an attestation on the target for this committee, in some view, in a member's name |
| `Aggregate.GenuineExactly` | crates/qtv-attest/src/aggregate.rs:167-182 | A candidate of the commitment's slot is admitted exactly when its member's key signed it and its member is drawn |
| `Aggregate.CertifiesExactly` | crates/qtv-attest/src/aggregate.rs:19-69 | A view certifies exactly when block, slot, weight and budget are as the verifier demands, the views above leave some of four checks a member, tau signers are there in sampled modes, and those admitted with what is left pass the verifier's quorum |
| `Aggregate.ViewCostExactly` | crates/qtv-attest/src/aggregate.rs:45-64 | A view takes the checks of its candidates, none when skipped for fewer than tau signers in a sampled mode |
| `Aggregate.ChecksInVainExactly` | crates/qtv-attest/src/aggregate.rs:31-69 | Without a certificate the checks made are those of all views within four a member, and none for a block, slot or commitment that is refused |
| `Aggregate.CountsSuffice` | crates/qtv-attest/src/aggregate.rs:39-69 | A view with a heard supermajority makes a certificate whenever the different candidates in the views tried above it plus four for each member with a candidate in it stay within four a committee member |
| `Aggregate.QuietSuffices` | crates/qtv-attest/src/aggregate.rs:39-69 | In particular when every view above it has no candidates or is skipped for having fewer than tau signers |
| `AggregateLimits.FloodPastTheBudget` | crates/qtv-attest/src/aggregate.rs:39-69 | The limit over any primitives: in any context where a full draw hangs on one member, any list of n forgeries above a crowd of m with three forgeries before each genuine vote has these counts and a heard supermajority, and once n + 4 m exceeds the budget no view makes a certificate |
| `AggregateLimits.PastTheCounts` | crates/qtv-attest/src/aggregate.rs:39-69 | Such lists exist for every committee size and all counts beyond the budget, so past those counts nothing can be promised |
| `AggregateLimits.FourForgeriesSilence` | crates/qtv-attest/src/aggregate.rs:39-69 | The least such list: one member in a full draw, four forgeries in view 1, its genuine vote in view 0, and no certificate |
| `AggregateLimits.MismatchIsMade` | crates/qtv-attest/src/aggregate.rs:19-69 | A certificate is made at height 1 for a block of height 0, and the verifier rejects it with HeightMismatch |
| `BftCore.CommitteeMembers` | crates/qtv-bft/src/committee.rs:10-21 | A drawn committee holds distinct voting ids, as many as asked for or as there are |
| `BftCore.CommitteeIsLowest` | crates/qtv-bft/src/committee.rs:10-21 | The committee is the lowest-scored voters: the hash of the seed and a member's id is below that of any outsider at the first byte that differs, or equal with a lower id |
| `BftCore.ScoreInputInjective` | crates/qtv-bft/src/committee.rs:10-21 | Scores of different ids, and of one id on different seeds, are hashes of different inputs |
| `BftCore.CommitteeAscends` | crates/qtv-bft/src/committee.rs:10-21 | The committee is listed in ascending order |
| `BftCore.VoteMessageInjective` | crates/qtv-bft/src/attest.rs:13-18 | A signed vote determines its height and block |
| `BftCore.BeaconInputInjective` | crates/qtv-bft/src/certificate.rs:22-32 | The hash input of a beacon determines the previous seed, the block and the attesters |
| `BftSteps.VotesFor` | crates/qtv-bft/src/machine.rs:175-182 | Exactly the votes for the block at the height, each as often as it is among the messages |
| `BftSteps.VotesForSplits` | crates/qtv-bft/src/machine.rs:175-182 | They come in the order of the messages |
| `BftSteps.Aggregate` | crates/qtv-bft/src/certificate.rs:35-74 | The loop counts each verified committee member once and certifies exactly a quorum |
| `BftSafety.SeedStable` | crates/qtv-bft/src/machine.rs:106-117 | A seed depends only on the certificates below its height |
| `BftSafety.PastIsFixed` | crates/qtv-bft/src/machine.rs:106-125 | One more certificate changes no seed, committee or parent of any height up to its own |
| `BftSafety.SeedNext` | crates/qtv-bft/src/machine.rs:106-117 | One height up, the seed is the hash of the seed below, the block and the attesters decided there |
| `BftSafety.SeedBinds` | crates/qtv-bft/src/machine.rs:106-117 | Two chains decided below a height that give one seed there have the same blocks and attesters below, or a computed pair of different inputs has one hash |
| `BftSafety.HonestValueBinds` | crates/qtv-bft/src/machine.rs:135-141 | Two such chains on which honest leaders propose one value are the same below, or a computed pair collides |
| `BftSafety.AggregatedExactly` | crates/qtv-bft/src/certificate.rs:35-74 | A certificate forms if and only if the block is for the height and the members with a verified vote for it are a quorum, and it lists exactly those, each once |
| `BftSafety.AggregatedSound` | crates/qtv-bft/src/certificate.rs:35-74 | A certificate names more than two thirds of the committee, each once, each with a vote among the messages |
| `BftSafety.StepKeepsSafe` | crates/qtv-bft/src/machine.rs:184-342 | Every step, byzantine ones included, keeps the invariant: certificates in order, votes only by members at open heights, one block an honest voter a height, every certificate backed |
| `BftSafety.RunIsSafe` | crates/qtv-bft/src/machine.rs:184-342 | The invariant holds in every reachable state |
| `BftSafety.VotesAgree` | crates/qtv-bft/src/machine.rs:299-315 | Agreement of votes: in every reachable state with under a third byzantine in the drawn committee, the votes at a height cannot make certificates for two blocks, finalized or not |
| `BftSafety.FinalIsValid` | crates/qtv-bft/src/machine.rs:143-145 | Every finalized block is valid at its height, judged at any later point of the run |
| `BftSafety.ChainDescends` | crates/qtv-bft/src/machine.rs:85-94 | certs[i] has height i + 1, stays within budget, and its parent is the value finalized one below, in every reachable state |
| `BftProposals.StepKeepsProposals` | crates/qtv-bft/src/machine.rs:184-342 | Every step keeps it true that proposals come from the leaders of their views and honest votes follow a proposal |
| `BftProposals.FinalWasProposed` | crates/qtv-bft/src/machine.rs:147-169 | In every reachable state a final block was proposed by the leader of some view of its height, and if that leader is honest it is the honest block |
| `BftProposals.RunSendsOnce` | crates/qtv-bft/src/machine.rs:184-281 | In every reachable state no message, proposal or vote, byzantine ones included, was sent twice |
| `BftSlashing.Equivocators` | crates/qtv-bft/src/equivocation.rs:11-22 | The quadratic rescan returns exactly the signers of contradictory pairs, ascending and without repeats |
| `BftSlashing.Rescan` | crates/qtv-bft/src/machine.rs:344-352 | The rescan of all messages finds exactly the double voters |
| `BftSlashing.StepKeepsLedger` | crates/qtv-bft/src/machine.rs:283-289 | Every step keeps the live ledger exact |
| `BftSlashing.SlashFromExactly` | crates/qtv-bft/src/slashing.rs:30-60 | A slash takes two signed votes of one signer at one height for different blocks, and burns the whole bond |
| `BftSlashing.LedgerAgrees` | crates/qtv-bft/src/slashing.rs:48-127 | In every reachable state: banned exactly when a double voter, only byzantine validators, each once, and the burned bond is the fixed bond times their number |
| `BftLiveness.RoundDecides` | crates/qtv-bft/src/machine.rs:368-380 | An honest leader's round at an untouched height finalizes its honest block, attested by exactly the honest members of the committee, if and only if honest members are a quorum; otherwise it decides nothing |
| `BftLiveness.AdvanceDecides` | crates/qtv-bft/src/machine.rs:358-385 | advance_height ends, and succeeds exactly when honest members are a quorum and lead some view from the current one to the last; it then adds one certificate, for the honest block, attested by exactly the honest members |
| `BftLiveness.RunReaches` | crates/qtv-bft/src/machine.rs:387-397 | A new machine's run returns the chain of honest rounds that the configuration alone determines, with its blocks and attesters, up to the first height that is not live on that chain; it finalizes every height if and only if every height is live |
| `BftLiveness.TurnsDiffer` | crates/qtv-bft/src/committee.rs:23-29 | Consecutive turns of the rotation fall to different members until all had one |
| `BftLiveness.LeaderTakesTurn` | crates/qtv-bft/src/committee.rs:23-29 | The leader is the member at height plus view, modulo the size, while the sum does not wrap |
| `BftLiveness.HonestLeaderComes` | crates/qtv-bft/src/committee.rs:23-29 | With no fewer views than members that are not honest, and no wrap of height plus view, some honest member leads |
| `BftLiveness.RunFinalizesAll` | crates/qtv-bft/src/machine.rs:358-397 | With an honest quorum in every committee drawn on that chain and a view bound no less than its other members, the run returns the whole chain |
| `BftRuns.DriverIsARun` | crates/qtv-bft/src/machine.rs:358-397 | The driver reaches only states that a run of steps reaches, so all that holds of runs holds of it |
| `BftRuns.CommitteeStays` | crates/qtv-bft/src/machine.rs:106-125 | However a run goes on, the committee of a height whose lower heights are decided stays the same |
| `BftRuns.SplitVotesStall` | crates/qtv-bft/src/machine.rs:235-281 | Once no block has a quorum left to it, of members neither offline nor honest with a vote for another, no continuation of the run decides the height; this needs no working keys |
| `BftSplit.OneLeaderStalls` | crates/qtv-bft/src/machine.rs:210-260 | It happens within the fault bound: of four voters the byzantine leader of view 0 proposes three valid blocks, each honest member votes for a different one, and no continuation decides the height, over any primitives, seed and bounds |
| `BftDecidable.DecidableOn` | crates/qtv-bft/src/machine.rs:184-334 | After any run some continuation decides the next height on a block exactly when the block is for that height and a quorum of the committee is byzantine, voted for it, or, if it is valid and seen or still proposable, honest with no vote for another |
| `BftDecidable.DecidableExactly` | crates/qtv-bft/src/machine.rs:184-334 | So the next height can still be decided exactly when some block is certifiable in that sense, and is stuck for good otherwise |
| `BftDecidable.ContinuationForeseen` | crates/qtv-bft/src/machine.rs:184-334 | The invariant behind it: until the height is decided, every later view, proposal and vote at it is one the first state allowed; and it is decided on a certifiable block |
| `BftDecidable.AbleVote` | crates/qtv-bft/src/machine.rs:184-281 | From any state a continuation of timeouts, one proposal and votes brings every able member to vote for the block |
| `BftMachine.EquivocationDetector.Observe` | crates/qtv-bft/src/slashing.rs:70-95 | Keeps the first signed attestation at each signer and height, and answers with the one contradicted |
| `BftMachine.SlashLedger.Apply` | crates/qtv-bft/src/slashing.rs:108-114 | Adds the slash unless its validator is banned already, says which, and leaves the validator banned |
| `BftMachine.Machine.constructor` | crates/qtv-bft/src/machine.rs:32-56 | The machine starts in the initial state of the transition system, all views zero |
| `BftMachine.Machine.SeedForHeight` | crates/qtv-bft/src/machine.rs:106-117 | The loop computes the seed folded over the certificates below the height |
| `BftMachine.Machine.HonestPropose` | crates/qtv-bft/src/machine.rs:184-208 | Takes the state where the honest proposal step does, and answers true exactly when it changed |
| `BftMachine.Machine.ByzPropose` | crates/qtv-bft/src/machine.rs:210-233 | The same for the byzantine proposal |
| `BftMachine.Machine.DetectAndSlash` | crates/qtv-bft/src/machine.rs:283-289 | Passes a vote through detector and ledger as the transition system does |
| `BftMachine.Machine.Vote` | crates/qtv-bft/src/machine.rs:235-260 | Takes the state where the honest vote step does, and answers true exactly when it changed |
| `BftMachine.Machine.ByzVote` | crates/qtv-bft/src/machine.rs:262-281 | The same for the byzantine vote |
| `BftMachine.Machine.Finalize` | crates/qtv-bft/src/machine.rs:299-315 | Takes the state where the finalizing step does, and answers true exactly when it changed |
| `BftMachine.Machine.Timeout` | crates/qtv-bft/src/machine.rs:317-334 | Moves one view on exactly when the step may, and answers so |
| `BftMachine.Machine.Stabilize` | crates/qtv-bft/src/machine.rs:336-342 | Makes the machine stable; true exactly the first time |
| `BftMachine.Machine.LeadRound` | crates/qtv-bft/src/machine.rs:368-380 | The honest branch of the driver is the round the liveness theorems are about; from height 1 on, as at height 0 `honest_block` underflows, which panics under the release profile's overflow checks |
| `BftMachine.Machine.AdvanceHeight` | crates/qtv-bft/src/machine.rs:358-385 | The loop terminates and computes the driver function, at every height it does not panic at |
| `BftMachine.Machine.Run` | crates/qtv-bft/src/machine.rs:387-397 | The loop computes the run function; the sorted result is the certificates as they stand |
| `BftMachine.Machine.Slashed` | crates/qtv-bft/src/machine.rs:344-352 | The rescan returns, once each and ascending, exactly the double voters, and agrees with the live ledger in every state that the slashing invariant describes |

## Left out

- ML-DSA, SHA-3 and SHAKE themselves: arbitrary functions here. Key derivation, hedged signing, wiping of secrets.
- Floating point reference scores and selection probabilities, and statistical claims about committee sizes.
- Epoch registration messages and their signatures, stake origins, epoch rotation of the trees.
- `qtv-sim`, a reduced duplicate of the round logic, and the test registry of the sampler.
- `verify_leader`, the mode dispatch of `next_beacon`, the fixed beacon of a full draw, and the certificate digest: one-step compositions of what is modelled.
- `next_beacon` is modelled by its two draws of the lowest entry; the hash map from ids to registrations is a lookup in the list.
- Library sorts are the stable sorts of module `Sorting`, binary search is a lookup in an ascending list, and the test for shared keys is stated directly instead of through sorted neighbours.
- The reject reason for repeated signers exists in the source and is never produced; the model keeps it that way.
- Auxiliary subjects (proposals, prevotes, view changes) carry no agreement promise in the source and get none here.
- Agreement.CertificatesAgree: stated for the one trusted commitment of a height; certificates judged under different commitments are outside the promise.
- Beacon.WithholdingIsBounded: needs one honest entry, as the bound in the source's documentation does.
- LeaderLog.RefineLog2: setting a bit with `|=` is modelled as adding it, which is the same because that bit is still clear.
- BftSlashing.LedgerAgrees: the burned bond is an unbounded sum; overflow of its 64 bits would take more than 2^53 validators.
- BftMachine.Machine.Vote: the guards are one predicate of the transition system instead of a chain of early returns; both voting methods share the sending tail, and both proposing methods theirs.
- EquivocationScan.ScanForEquivocators: buckets are told apart by blocks, which their encodings determine (`Blocks.ToBytesInjective`).
