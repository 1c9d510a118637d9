/** Properties of the ledger that relate several operations: what tampering
    `is_chain_valid` detects and what it does not, how `find_by_hash`
    answers after an append, how the read accessors agree on a chain the
    ledger built, and what a run of appends (the order in which concurrent
    callers get through the chain lock) leaves behind. */
module LedgerProperties {

  import opened Options
  import opened Blocks
  import opened Ledger
  import Json

  // ---------------------------------------------------------------------
  // Tamper detection
  // ---------------------------------------------------------------------

  /** The digest does not collide on this pair of dictionaries. */
  predicate NoCollision(hash: Hasher, x: Json.Object, y: Json.Object)
  {
    x != y ==> hash(x) != hash(y)
  }

  /** Overwriting the stored hash of any block is detected, provided some
      block after the genesis block sees it: the block itself when it is
      not the genesis block, and block 1 (through its link) when it is. */
  lemma StoredHashTamperDetected(hash: Hasher, chain: Chain, i: nat, forged: Digest)
    requires Valid(hash, chain)
    requires i < |chain| && (i > 0 || |chain| > 1)
    requires forged != chain[i].currentHash
    ensures !Valid(hash, chain[i := chain[i].(currentHash := forged)])
  {
    var tampered := chain[i := chain[i].(currentHash := forged)];
    if i > 0 {
      assert chain[i].(currentHash := forged) == tampered[i];
      CalculateHashIgnoresStoredHash(hash, tampered[i], chain[i]);
      assert !LinkOk(hash, tampered[i - 1], tampered[i]);
    } else {
      assert tampered[1] == chain[1];
      assert !LinkOk(hash, tampered[0], tampered[1]);
    }
  }

  /** Rewriting any hashed field of a block after the genesis block while
      keeping its stored hash is detected, unless the new contents happen to
      collide with the old ones under the digest. */
  lemma ContentTamperDetected(hash: Hasher, chain: Chain, i: nat, forged: Block)
    requires Valid(hash, chain)
    requires 1 <= i < |chain|
    requires forged.currentHash == chain[i].currentHash && !SameContents(forged, chain[i])
    requires NoCollision(hash, HashInput(forged), HashInput(chain[i]))
    ensures !Valid(hash, chain[i := forged])
  {
    var tampered := chain[i := forged];
    HashInputInjective(forged, chain[i]);
    assert LinkOk(hash, chain[i - 1], chain[i]);
    assert tampered[i] == forged;
    assert !HashOk(hash, forged);
    assert !LinkOk(hash, tampered[i - 1], tampered[i]);
  }

  /** `is_chain_valid` starts at position 1, so the genesis block's contents
      are never rechecked: any replacement that keeps the stored hash goes
      unnoticed, and on a chain of one block any replacement at all does. */
  lemma GenesisTamperUndetected(hash: Hasher, chain: Chain, forged: Block)
    requires Valid(hash, chain) && |chain| > 0
    requires forged.currentHash == chain[0].currentHash || |chain| == 1
    ensures Valid(hash, chain[0 := forged])
  {
  }

  // ---------------------------------------------------------------------
  // find_by_hash and append
  // ---------------------------------------------------------------------

  /** Appending `b` does not disturb an earlier match and otherwise adds a
      match exactly at the new position when `b` holds the digest. */
  lemma {:induction false} FirstMatchFromAppend(chain: Chain, b: Block, h: Digest, start: nat)
    requires start <= |chain|
    ensures FirstMatchFrom(chain, h, start).Some? ==>
              FirstMatchFrom(chain + [b], h, start) == FirstMatchFrom(chain, h, start)
    ensures FirstMatchFrom(chain, h, start).None? ==>
              FirstMatchFrom(chain + [b], h, start) == (if HasCertificate(b, h) then Some(|chain|) else None)
    decreases |chain| - start
  {
    var extended := chain + [b];
    if start == |chain| {
      assert extended[start] == b;
    } else {
      assert extended[start] == chain[start];
      if !HasCertificate(chain[start], h) {
        FirstMatchFromAppend(chain, b, h, start + 1);
      }
    }
  }

  /** What `find_by_hash` answers after an append: the block it found
      before, if any; otherwise the new block when it holds the digest;
      otherwise nothing. */
  lemma FindByHashAfterAppend(chain: Chain, b: Block, h: Digest)
    ensures FindByHash(chain + [b], h) ==
              if FindByHash(chain, h).Some? then FindByHash(chain, h)
              else if HasCertificate(b, h) then Some(b)
              else None
  {
    FirstMatchFromAppend(chain, b, h, 0);
    assert (chain + [b])[|chain|] == b;
    match FirstMatchFrom(chain, h, 0)
    case Some(i) => assert (chain + [b])[i] == chain[i];
    case None =>
  }

  /** Recording a certificate makes it findable: after `add_block` with a
      payload whose `certificate_hash` is `h`, `find_by_hash(h)` returns a
      block holding `h` (the earliest one, if `h` was recorded before). */
  lemma RecordedCertificateIsFound(chain: Chain, b: Block, h: Digest)
    requires "certificate_hash" in b.data && b.data["certificate_hash"] == h
    ensures FindByHash(chain + [b], h).Some?
    ensures HasCertificate(FindByHash(chain + [b], h).value, h)
    ensures FindByHash(chain, h).None? ==> FindByHash(chain + [b], h) == Some(b)
  {
    FindByHashAfterAppend(chain, b, h);
  }

  /** The genesis block records the all-zero digest as its certificate, so
      on every chain the ledger builds a lookup of that digest answers with
      the genesis block. */
  lemma GenesisAnswersZeroDigest(hash: Hasher, chain: Chain)
    requires Invariant(hash, chain)
    ensures FindByHash(chain, ZeroDigest) == Some(chain[0])
  {
  }

  // ---------------------------------------------------------------------
  // Accessors
  // ---------------------------------------------------------------------

  /** On a chain the ledger built, the accessors agree: the tail's index is
      the length minus one, the tail is what `get_block` returns there, the
      export has one entry per block, and `get_block(i)` returns the block
      whose index is `i`. */
  lemma AccessorsAgree(hash: Hasher, chain: Chain)
    requires Invariant(hash, chain)
    ensures LatestBlock(chain).index == ChainLength(chain) - 1
    ensures GetBlock(chain, ChainLength(chain) - 1) == Some(LatestBlock(chain))
    ensures |GetAllBlocks(chain)| == ChainLength(chain)
    ensures forall i :: GetBlock(chain, i).Some? ==> GetBlock(chain, i).value.index == i
  {
  }

  /** Positions are strictly increasing along a chain the ledger built, so
      no two blocks share one. */
  lemma PositionsIncrease(hash: Hasher, chain: Chain, i: nat, j: nat)
    requires Invariant(hash, chain)
    requires i < j < |chain|
    ensures chain[i].index < chain[j].index
  {
  }

  // ---------------------------------------------------------------------
  // Appends in sequence
  // ---------------------------------------------------------------------

  /** Every block can be mined: the hypothesis under which any number of
      appends all terminate. */
  ghost predicate AlwaysMineable(hash: Hasher)
  {
    forall b: Block :: CanMine(hash, b)
  }

  /** The chain lock serialises concurrent `add_block` calls, so K callers
      amount to K appends in some order.  Whatever the order, the chain
      grows by exactly K blocks, each at the next position with its own
      payload, the old blocks are untouched, and the ledger invariant (so
      `is_chain_valid`) still holds. */
  method AppendSerially(hash: Hasher, chain: Chain, batch: seq<Payload>, times: seq<Timestamp>)
    returns (chain': Chain, added: seq<Block>)
    requires Invariant(hash, chain) && AlwaysMineable(hash)
    requires |times| == |batch|
    ensures chain' == chain + added && |added| == |batch|
    ensures Invariant(hash, chain')
    ensures forall k :: 0 <= k < |added| ==>
              added[k].index == |chain| + k && added[k].data == batch[k] && added[k].timestamp == times[k]
  {
    chain' := chain;
    added := [];
    for k := 0 to |batch|
      invariant chain' == chain + added && |added| == k
      invariant Invariant(hash, chain')
      invariant forall j :: 0 <= j < k ==>
                  added[j].index == |chain| + j && added[j].data == batch[j] && added[j].timestamp == times[j]
    {
      var b;
      chain', b := AddBlock(hash, chain', batch[k], times[k]);
      added := added + [b];
    }
  }

  /** Two certificates recorded one after the other on a fresh ledger:
      the first lands at position 1 linked to the genesis block and is what
      a lookup of its fingerprint returns, the second makes the chain three
      blocks long and links to the first, and the chain stays valid. */
  method RecordTwoCertificates(hash: Hasher, t0: Timestamp, t1: Timestamp, t2: Timestamp)
    returns (chain: Chain, first: Block, second: Block)
    requires AlwaysMineable(hash)
    ensures |chain| == 3 && chain[1] == first && chain[2] == second
    ensures first.index == 1 && first.previousHash == chain[0].currentHash
    ensures second.previousHash == first.currentHash && LatestBlock(chain) == second
    ensures FindByHash(chain, "abc123") == Some(first)
    ensures FindByHash(chain, "def456") == Some(second)
    ensures Valid(hash, chain)
  {
    var genesisOnly := Fresh(hash, t0);
    var one;
    one, first := AddBlock(hash, genesisOnly, map["certificate_hash" := "abc123", "subject" := "S1"], t1);
    chain, second := AddBlock(hash, one, map["certificate_hash" := "def456", "subject" := "S2"], t2);
    TwoCertificateLookups(genesisOnly, first, second);
  }

  /** Lookups on a genesis-only chain extended by two blocks holding the
      fingerprints `abc123` and `def456`: each finds its own block. */
  lemma TwoCertificateLookups(genesisOnly: Chain, first: Block, second: Block)
    requires |genesisOnly| == 1 && IsGenesis(genesisOnly[0])
    requires HasCertificate(first, "abc123") && HasCertificate(second, "def456")
    ensures FindByHash(genesisOnly + [first] + [second], "abc123") == Some(first)
    ensures FindByHash(genesisOnly + [first] + [second], "def456") == Some(second)
  {
    var one := genesisOnly + [first];
    assert !HasCertificate(genesisOnly[0], "abc123") && !HasCertificate(genesisOnly[0], "def456");
    assert !HasCertificate(first, "def456");
    FindByHashAfterAppend(genesisOnly, first, "abc123");
    FindByHashAfterAppend(one, second, "abc123");
    FindByHashAfterAppend(genesisOnly, first, "def456");
    FindByHashAfterAppend(one, second, "def456");
  }

}
