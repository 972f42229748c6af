/** Attestations: one validator's signature over a height, slot, view, committee and block. */
module Attestations {
  import opened Bytes
  import opened Blocks
  import opened OneTime
  import opened Sortition

  /** The byte length of an ML-DSA-65 public key (FIPS 204, table 2). */
  const PUBLIC_KEY_BYTES: nat := 1952

  type PublicKey = s: seq<u8> | |s| == PUBLIC_KEY_BYTES witness seq(PUBLIC_KEY_BYTES, _ => 0)

  /** The primitives the layer is built on, arbitrary: the hashes, and `verify(key, message, signature, context)`. */
  datatype Crypto = Crypto(hashes: Hashing, verify: (PublicKey, seq<u8>, seq<u8>, seq<u8>) -> bool)

  datatype ChainBinding = ChainBinding(chainId: u64, genesis: Bytes32)

  /** What an attestation's signature covers, besides the chain. */
  datatype Subject = Subject(height: u64, slot: u64, view: u64, committee: Bytes32, block: Block)

  datatype Attestation = Attestation(from: u64, subject: Subject, membership: Credential, sig: seq<u8>)

  function AttestContext(): seq<u8> { Ascii("QORUS-ATTEST-CERT") }

  function AttestationMessage(chain: ChainBinding, s: Subject): seq<u8> {
    LittleEndian(chain.chainId, 8) + chain.genesis + LittleEndian(s.height, 8) + LittleEndian(s.slot, 8)
    + LittleEndian(s.view, 8) + s.committee + s.block.ToBytes()
  }

  /** A signed message determines its chain and everything in its subject. */
  lemma MessageInjective(c: ChainBinding, s: Subject, d: ChainBinding, t: Subject)
    requires AttestationMessage(c, s) == AttestationMessage(d, t)
    ensures c == d && s == t
  {
    var a1, b1 := LittleEndian(c.chainId, 8), LittleEndian(d.chainId, 8);
    var a2, b2 := a1 + c.genesis, b1 + d.genesis;
    var a3, b3 := a2 + LittleEndian(s.height, 8), b2 + LittleEndian(t.height, 8);
    var a4, b4 := a3 + LittleEndian(s.slot, 8), b3 + LittleEndian(t.slot, 8);
    var a5, b5 := a4 + LittleEndian(s.view, 8), b4 + LittleEndian(t.view, 8);
    SplitConcat(a5 + s.committee, s.block.ToBytes(), b5 + t.committee, t.block.ToBytes());
    SplitConcat(a5, s.committee, b5, t.committee);
    SplitConcat(a4, LittleEndian(s.view, 8), b4, LittleEndian(t.view, 8));
    SplitConcat(a3, LittleEndian(s.slot, 8), b3, LittleEndian(t.slot, 8));
    SplitConcat(a2, LittleEndian(s.height, 8), b2, LittleEndian(t.height, 8));
    SplitConcat(a1, c.genesis, b1, d.genesis);
    U64Injective(c.chainId, d.chainId);
    U64Injective(s.height, t.height);
    U64Injective(s.slot, t.slot);
    U64Injective(s.view, t.view);
    ToBytesInjective(s.block, t.block);
  }

  predicate SignatureVerifies(crypto: Crypto, chain: ChainBinding, att: Attestation, key: PublicKey) {
    crypto.verify(key, AttestationMessage(chain, att.subject), att.sig, AttestContext())
  }

  /** The cost that marks a proposal, prevote or view change subject, which is not a vote on a block. */
  const AUXILIARY_SUBJECT_COST: u64 := U64_MAX

  predicate VotesOnABlock(block: Block) {
    block.cost != AUXILIARY_SUBJECT_COST
  }
}
