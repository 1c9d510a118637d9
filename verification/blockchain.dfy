/** The certificate ledger: an ordered sequence of blocks that starts from a
    fixed genesis block and grows only by mined, hash-linked appends.

    The Python class keeps one mutable, lock-guarded chain per process; here
    a chain is an immutable `seq<Block>` and every mutating operation
    returns the new chain.  The digest function is the parameter `hash`, the
    wall clock is the parameter `now`. */
module Ledger {

  import opened Options
  import opened Blocks
  import Json

  type Chain = seq<Block>

  /** The prefix a mined hash must start with (`startswith('0')`). */
  const ProofPrefix: string := "0"

  /** The metadata stored in the genesis block. */
  const GenesisData: Payload := map[
    "certificate_hash" := ZeroDigest,
    "student_name" := "Genesis",
    "student_id" := "0",
    "certificate_type" := "genesis",
    "institution" := "BlockVerify System"]

  /** The tail of a non-empty chain. */
  function Last(chain: Chain): Block
    requires |chain| > 0
  {
    chain[|chain| - 1]
  }

  // ---------------------------------------------------------------------
  // Invariants
  // ---------------------------------------------------------------------

  /** A digest passes the proof-of-work gate. */
  predicate Mined(d: Digest)
  {
    ProofPrefix <= d
  }

  /** The shape of a genesis block. */
  predicate IsGenesis(b: Block)
  {
    && b.index == 0
    && b.previousHash == ZeroDigest
    && b.nonce == 0
    && b.data == GenesisData
  }

  /** Block `cur` passes both checks `is_chain_valid` makes of it: its
      stored hash is the recomputed one, and it links to `prev`. */
  predicate LinkOk(hash: Hasher, prev: Block, cur: Block)
  {
    HashOk(hash, cur) && cur.previousHash == prev.currentHash
  }

  /** What `is_chain_valid` checks: every block from position 1 on has an
      intact hash and links to its predecessor.  The genesis block's own
      hash is not rechecked. */
  predicate Valid(hash: Hasher, chain: Chain)
  {
    forall i :: 1 <= i < |chain| ==> LinkOk(hash, chain[i - 1], chain[i])
  }

  /** Every block's index is its position. */
  predicate Positioned(chain: Chain)
  {
    forall i :: 0 <= i < |chain| ==> chain[i].index == i
  }

  /** The invariant every chain the ledger builds keeps: it starts from a
      genesis block with an intact hash, indexes are positions, it is
      `Valid`, and every appended block is mined. */
  predicate Invariant(hash: Hasher, chain: Chain)
  {
    && |chain| > 0
    && IsGenesis(chain[0])
    && HashOk(hash, chain[0])
    && Positioned(chain)
    && Valid(hash, chain)
    && (forall i :: 1 <= i < |chain| ==> Mined(chain[i].currentHash))
  }

  // ---------------------------------------------------------------------
  // Construction and reset
  // ---------------------------------------------------------------------

  /** `_create_genesis_block`: the genesis block created at time `now`. */
  function GenesisBlock(hash: Hasher, now: Timestamp): (g: Block)
    ensures IsGenesis(g) && HashOk(hash, g) && g.timestamp == now
    ensures g.data["certificate_hash"] == ZeroDigest
  {
    NewBlock(hash, 0, now, GenesisData, ZeroDigest)
  }

  /** A freshly constructed ledger: the genesis block alone. */
  function Fresh(hash: Hasher, now: Timestamp): (chain: Chain)
    ensures |chain| == 1 && IsGenesis(chain[0]) && chain[0].timestamp == now
    ensures Invariant(hash, chain)
  {
    [GenesisBlock(hash, now)]
  }

  /** `reset`: every block is discarded and a new genesis block, created
      at `now`, is the whole chain. */
  function Reset(hash: Hasher, chain: Chain, now: Timestamp): (chain': Chain)
    ensures |chain'| == 1 && IsGenesis(chain'[0]) && chain'[0].timestamp == now
    ensures Invariant(hash, chain')
  {
    Fresh(hash, now)
  }

  // ---------------------------------------------------------------------
  // Appending
  // ---------------------------------------------------------------------

  /** The hash `b` would have with nonce `n` and its other fields as they
      are. */
  function Attempt(hash: Hasher, b: Block, n: nat): Digest
  {
    CalculateHash(hash, b.(nonce := n))
  }

  /** Some nonce makes `b`'s hash pass the gate.  SHA-256 promises no such
      thing; the mining loop terminates only under this hypothesis. */
  ghost predicate CanMine(hash: Hasher, b: Block)
  {
    exists n: nat :: Mined(Attempt(hash, b, n))
  }

  /** `b` is `candidate` after mining: the same contents except the nonce,
      which is the least one whose hash passes the gate, and the hash,
      which is recomputed for it. */
  predicate MinedFrom(hash: Hasher, candidate: Block, b: Block)
  {
    && b == candidate.(nonce := b.nonce, currentHash := b.currentHash)
    && HashOk(hash, b)
    && Mined(b.currentHash)
    && forall k: nat :: k < b.nonce ==> !Mined(Attempt(hash, candidate, k))
  }

  /** The proof-of-work loop of `add_block`: starting from the freshly
      built block (nonce 0), bump the nonce and recompute the hash until the
      hash starts with the proof prefix. */
  method ProofOfWork(hash: Hasher, candidate: Block) returns (b: Block)
    requires candidate.nonce == 0 && HashOk(hash, candidate)
    requires CanMine(hash, candidate)
    ensures MinedFrom(hash, candidate, b)
  {
    ghost var goal: nat :| Mined(Attempt(hash, candidate, goal));
    b := candidate;
    while !Mined(b.currentHash)
      invariant b.nonce <= goal
      invariant b == candidate.(nonce := b.nonce, currentHash := b.currentHash)
      invariant b.currentHash == Attempt(hash, candidate, b.nonce)
      invariant forall k: nat :: k < b.nonce ==> !Mined(Attempt(hash, candidate, k))
      decreases goal - b.nonce
    {
      b := b.(nonce := b.nonce + 1);
      b := b.(currentHash := CalculateHash(hash, b));
    }
  }

  /** The block `add_block` starts from before mining: linked to the tail,
      positioned at the end. */
  function Candidate(hash: Hasher, chain: Chain, data: Payload, now: Timestamp): (c: Block)
    requires |chain| > 0
    ensures c.index == |chain| && c.previousHash == Last(chain).currentHash
    ensures c.data == data && c.timestamp == now && c.nonce == 0
    ensures HashOk(hash, c)
  {
    NewBlock(hash, |chain|, now, data, Last(chain).currentHash)
  }

  /** `add_block`: build a block for `data` at time `now`, linked to the
      tail and positioned at the end, mine it, and append it. */
  method AddBlock(hash: Hasher, chain: Chain, data: Payload, now: Timestamp) returns (chain': Chain, b: Block)
    requires |chain| > 0
    requires CanMine(hash, Candidate(hash, chain, data, now))
    ensures chain' == chain + [b] && |chain'| == |chain| + 1 && Last(chain') == b
    ensures b.index == |chain| && b.timestamp == now && b.data == data
    ensures b.previousHash == Last(chain).currentHash
    ensures HashOk(hash, b) && Mined(b.currentHash)
    ensures forall k: nat :: k < b.nonce ==> !Mined(Attempt(hash, b, k))
    ensures Valid(hash, chain) ==> Valid(hash, chain')
    ensures Invariant(hash, chain) ==> Invariant(hash, chain')
  {
    var candidate := Candidate(hash, chain, data, now);
    b := ProofOfWork(hash, candidate);
    forall k: nat ensures Attempt(hash, b, k) == Attempt(hash, candidate, k) {
      CalculateHashIgnoresStoredHash(hash, b.(nonce := k), candidate.(nonce := k));
    }
    chain' := chain + [b];
    if Valid(hash, chain) {
      AppendPreservesValid(hash, chain, b);
    }
    if Invariant(hash, chain) {
      AppendPreservesInvariant(hash, chain, b);
    }
  }

  /** Appending a block with an intact hash that links to the tail keeps
      a valid chain valid. */
  lemma AppendPreservesValid(hash: Hasher, chain: Chain, b: Block)
    requires |chain| > 0 && Valid(hash, chain)
    requires LinkOk(hash, Last(chain), b)
    ensures Valid(hash, chain + [b])
  {
  }

  /** Appending a mined block positioned at the end, with an intact hash,
      that links to the tail keeps the ledger invariant. */
  lemma AppendPreservesInvariant(hash: Hasher, chain: Chain, b: Block)
    requires Invariant(hash, chain)
    requires b.index == |chain| && LinkOk(hash, Last(chain), b) && Mined(b.currentHash)
    ensures Invariant(hash, chain + [b])
  {
    var c := chain + [b];
    AppendPreservesValid(hash, chain, b);
    assert forall i :: 0 <= i < |chain| ==> c[i] == chain[i];
  }

  // ---------------------------------------------------------------------
  // Queries
  // ---------------------------------------------------------------------

  /** `get_block`: the block at `index`, or nothing when `index` is out of
      range (negative indexes included). */
  function GetBlock(chain: Chain, index: int): (r: Option<Block>)
    ensures r.Some? <==> 0 <= index < |chain|
    ensures r.Some? ==> r.value == chain[index]
  {
    if 0 <= index < |chain| then Some(chain[index]) else None
  }

  /** `block.data.get('certificate_hash') == certificate_hash`: a missing
      key never matches a digest. */
  predicate HasCertificate(b: Block, certificateHash: Digest)
  {
    "certificate_hash" in b.data && b.data["certificate_hash"] == certificateHash
  }

  /** The first position at or after `start` whose block holds
      `certificateHash`, if any. */
  function FirstMatchFrom(chain: Chain, certificateHash: Digest, start: nat): (r: Option<nat>)
    requires start <= |chain|
    ensures r.Some? ==> start <= r.value < |chain| && HasCertificate(chain[r.value], certificateHash)
    ensures r.Some? ==> forall j :: start <= j < r.value ==> !HasCertificate(chain[j], certificateHash)
    ensures r.None? ==> forall j :: start <= j < |chain| ==> !HasCertificate(chain[j], certificateHash)
    decreases |chain| - start
  {
    if start == |chain| then None
    else if HasCertificate(chain[start], certificateHash) then Some(start)
    else FirstMatchFrom(chain, certificateHash, start + 1)
  }

  /** `find_by_hash`: the first block, in chain order, whose metadata holds
      `certificateHash`; nothing when no block holds it. */
  function FindByHash(chain: Chain, certificateHash: Digest): (r: Option<Block>)
    ensures r.None? <==> forall j :: 0 <= j < |chain| ==> !HasCertificate(chain[j], certificateHash)
    ensures r.Some? ==> HasCertificate(r.value, certificateHash)
    ensures r.Some? ==> exists i :: 0 <= i < |chain| && chain[i] == r.value
                                    && forall j :: 0 <= j < i ==> !HasCertificate(chain[j], certificateHash)
  {
    match FirstMatchFrom(chain, certificateHash, 0)
    case Some(i) => Some(chain[i])
    case None => None
  }

  /** `get_chain_length`: the number of blocks, which is exactly the range
      of positions `get_block` answers for. */
  function ChainLength(chain: Chain): (n: nat)
    ensures forall i :: GetBlock(chain, i).Some? <==> 0 <= i < n
  {
    |chain|
  }

  /** `get_latest_block`: the block at the last position; on a chain whose
      indexes are positions, its index is the length minus one. */
  function LatestBlock(chain: Chain): (b: Block)
    requires |chain| > 0
    ensures GetBlock(chain, |chain| - 1) == Some(b)
    ensures Positioned(chain) ==> b.index == |chain| - 1
  {
    Last(chain)
  }

  /** `get_all_blocks`: the exported view of every block, in chain order. */
  function GetAllBlocks(chain: Chain): (views: seq<Json.Object>)
    ensures |views| == |chain|
    ensures forall i :: 0 <= i < |views| ==> views[i].Keys == ExportedKeys
    ensures forall i :: 0 <= i < |views| ==> FromDict(views[i]) == Some(chain[i])
  {
    forall b | b in chain ensures FromDict(ToDict(b)) == Some(b) {
      ToDictRoundTrip(b);
    }
    seq(|chain|, i requires 0 <= i < |chain| => ToDict(chain[i]))
  }

  // ---------------------------------------------------------------------
  // is_chain_valid
  // ---------------------------------------------------------------------

  /** `is_chain_valid`: walk positions 1 to the end, and answer false at the
      first block whose stored hash is not the recomputed one or that does
      not link to its predecessor. */
  method IsChainValid(hash: Hasher, chain: Chain) returns (ok: bool)
    ensures ok <==> Valid(hash, chain)
  {
    var i := 1;
    while i < |chain|
      invariant 1 <= i && (i <= |chain| || i == 1)
      invariant forall j :: 1 <= j < i && j < |chain| ==> LinkOk(hash, chain[j - 1], chain[j])
    {
      var current := chain[i];
      var previous := chain[i - 1];
      if current.currentHash != CalculateHash(hash, current) {
        return false;
      }
      if current.previousHash != previous.currentHash {
        return false;
      }
      i := i + 1;
    }
    return true;
  }

}
