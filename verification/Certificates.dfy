/** Finality certificates: attestations in order of their signers, under an envelope naming the subject. */
module Certificates {
  import opened Bytes
  import opened IdSets
  import opened Sorting
  import opened Blocks
  import opened OneTime
  import opened Sortition
  import opened Attestations
  import opened Commitments

  datatype Envelope = Envelope(height: u64, slot: u64, block: Block, committee: Bytes32)

  function EnvelopeFor(h: Hashing, height: u64, slot: u64, block: Block, c: CommitteeCommitment): Envelope {
    Envelope(height, slot, block, Digest(h, c))
  }

  datatype Certificate = Certificate(envelope: Envelope, attestations: seq<Attestation>,
                                     committeeReveals: seq<PublishedReveal>)

  function Signers(atts: seq<Attestation>): (ids: seq<u64>)
    ensures |ids| == |atts|
  {
    seq(|atts|, i requires 0 <= i < |atts| => atts[i].from)
  }

  function SignerSet(atts: seq<Attestation>): set<u64> {
    set a | a in atts :: a.from
  }

  // ---- sorting by signer ----

  function ByFrom(): (Attestation, Attestation) -> bool {
    (a: Attestation, b: Attestation) => a.from <= b.from
  }

  function SortByFrom(atts: seq<Attestation>): seq<Attestation> {
    SortBy(ByFrom(), atts)
  }

  lemma SortKeepsMembers(atts: seq<Attestation>)
    ensures multiset(SortByFrom(atts)) == multiset(atts) && |SortByFrom(atts)| == |atts|
    ensures forall a :: a in SortByFrom(atts) <==> a in atts
    ensures forall i, j :: 0 <= i < j < |atts| ==> SortByFrom(atts)[i].from <= SortByFrom(atts)[j].from
  {
    SortKeeps(ByFrom(), atts);
    SortSorts(ByFrom(), atts);
    assert forall i, j :: 0 <= i < j < |atts| ==> ByFrom()(SortByFrom(atts)[i], SortByFrom(atts)[j]);
  }

  function NewCertificate(envelope: Envelope, atts: seq<Attestation>): Certificate {
    Certificate(envelope, SortByFrom(atts), [])
  }

  // ---- the signers, ascending and without repeats ----

  ghost predicate AscendingIds(ids: seq<u64>) {
    forall i, j :: 0 <= i < j < |ids| ==> ids[i] < ids[j]
  }

  function InsertId(id: u64, ids: seq<u64>): (r: seq<u64>)
    ensures forall x :: x in r <==> x == id || x in ids
  {
    if ids == [] || id < ids[0] then [id] + ids
    else if id == ids[0] then ids
    else [ids[0]] + InsertId(id, ids[1..])
  }

  lemma {:induction false} InsertIdAscends(id: u64, ids: seq<u64>)
    requires AscendingIds(ids)
    ensures AscendingIds(InsertId(id, ids))
  {
    if ids != [] {
      assert forall j :: 0 < j < |ids| ==> ids[0] < ids[j];
      if id > ids[0] {
        InsertIdAscends(id, ids[1..]);
        var rest := InsertId(id, ids[1..]);
        forall i | 0 <= i < |rest| ensures ids[0] < rest[i] {
          assert rest[i] in rest;
        }
      }
    }
  }

  /** The certificate's signers, sorted and deduplicated. */
  function Attesters(atts: seq<Attestation>): (ids: seq<u64>)
    ensures IdSet(ids) == SignerSet(atts)
  {
    if atts == [] then []
    else
      var ids := InsertId(atts[0].from, Attesters(atts[1..]));
      assert atts == [atts[0]] + atts[1..];
      assert forall x :: x in IdSet(ids) <==> x == atts[0].from || x in IdSet(Attesters(atts[1..]));
      ids
  }

  lemma {:induction false} AttestersAscend(atts: seq<Attestation>)
    ensures AscendingIds(Attesters(atts))
  {
    if atts != [] {
      AttestersAscend(atts[1..]);
      InsertIdAscends(atts[0].from, Attesters(atts[1..]));
    }
  }
}
