# BlockVerify certificate ledger — Dafny model

BlockVerify records certificate fingerprints (SHA-256 digests of uploaded
documents) in an in-memory, hash-linked, append-only chain of blocks, and
later answers "was this fingerprint recorded, and is the chain intact?".
This project models that ledger, `blockverify/blockchain/blockchain.py`:

- `Blocks` (`block.dfy`): the `Block` record with its six fields (`index`,
  `timestamp`, `data`, `previous_hash`, `nonce`, `current_hash`), the
  canonical dictionary `calculate_hash` serialises, the hash check, the
  constructor and the `to_dict` export view.
- `Ledger` (`blockchain.dfy`): the chain as a `seq<Block>`, the genesis
  block, `reset`, `add_block` with its proof-of-work loop, `get_block`,
  `find_by_hash`, `is_chain_valid` and the read accessors, together with the
  invariants they keep (`Valid`, `Positioned`, `Invariant`).
- `LedgerProperties` (`ledger_properties.dfy`): tamper detection and its
  genesis blind spot, `find_by_hash` after an append, accessor agreement, and
  a run of appends as the chain lock serialises concurrent callers.
- `Json` and `Options` (`json.dfy`, `options.dfy`): JSON values and the
  `Some`/`None` result of the lookups.

The digest (SHA-256 over `json.dumps(..., sort_keys=True)`) is a parameter
`hash: Json.Object -> Digest` of every operation that hashes. A JSON object
is a Dafny `map`, so two dictionaries with the same entries are the same
value whatever their insertion order, which is what `sort_keys=True` buys.
The wall clock is a parameter `now`. The chain is an immutable value: each
mutating operation returns the new chain.

The docstring of `is_chain_valid` promises to validate the integrity of
the entire blockchain, checking that each block's hash matches its
recalculated hash. Its loop walks positions 1 to the end, so the genesis
block's own hash is never recomputed. The model follows the loop:
`LedgerProperties.GenesisTamperUndetected` proves that a replaced genesis
block goes unnoticed when its stored hash is kept (and on a one-block chain
whatever it holds), and the tamper-detection lemmas cover blocks from
position 1 on.

## Model

| member | source | states |
|---|---|---|
| `Blocks.HashInputInjective` | blockverify/blockchain/blockchain.py:36-48 | the hashed dictionary is the same for two blocks exactly when they agree on index, timestamp, data, previous hash and nonce; the stored hash is not part of it, and key order does not matter |
| `Blocks.HashInput` | blockverify/blockchain/blockchain.py:41-47 | the serialised dictionary has exactly the keys `index`, `timestamp`, `data`, `previous_hash` and `nonce`, and never `current_hash` |
| `Blocks.CalculateHash` | blockverify/blockchain/blockchain.py:36-48 | the digest is taken of the canonical dictionary and is the same whatever hash the block currently stores |
| `Blocks.CalculateHashIgnoresStoredHash` | blockverify/blockchain/blockchain.py:36-48 | the recomputed hash depends only on the five hashed fields, never on the stored hash |
| `Blocks.NewBlock` | blockverify/blockchain/blockchain.py:28-34 | a new block carries the given index, time, data and parent hash, nonce 0, and a stored hash equal to its recomputed hash |
| `Blocks.ToDict` | blockverify/blockchain/blockchain.py:50-59 | the export has exactly the six field keys and is the hashed dictionary plus `current_hash` |
| `Blocks.ToDictRoundTrip` | blockverify/blockchain/blockchain.py:50-59 | reading an exported dictionary back gives the very block it came from: the export loses no field |
| `Blocks.ToDictInjective` | blockverify/blockchain/blockchain.py:50-59 | two blocks have equal exports exactly when they are equal |
| `Ledger.GenesisBlock` | blockverify/blockchain/blockchain.py:105-115 | the genesis block has index 0, nonce 0, the all-zero parent hash, the genesis metadata with the all-zero `certificate_hash`, and an intact hash |
| `Ledger.Fresh` | blockverify/blockchain/blockchain.py:96-115 | a new ledger holds one block, a genesis block, and satisfies the ledger invariant |
| `Ledger.Reset` | blockverify/blockchain/blockchain.py:212-216 | after a reset the chain is one genesis block created at the reset time, and the ledger invariant holds |
| `Ledger.ProofOfWork` | blockverify/blockchain/blockchain.py:138-141 | mining changes only nonce and hash; the hash is the recomputed one, starts with `'0'`, and the nonce is the least one that makes it so |
| `Ledger.Candidate` | blockverify/blockchain/blockchain.py:132-137 | the block `add_block` builds before mining sits at index = chain length, links to the tail's hash, carries the given data and time, has nonce 0 and an intact hash |
| `Ledger.AddBlock` | blockverify/blockchain/blockchain.py:117-144 | the chain grows by exactly the returned block, which is the new tail at index = old length, links to the old tail, holds the given data and time, is mined with the least nonce, and keeps `Valid` and the ledger invariant |
| `Ledger.AppendPreservesValid` | blockverify/blockchain/blockchain.py:186-198 | appending a block with an intact hash that links to the tail keeps a valid chain valid |
| `Ledger.AppendPreservesInvariant` | blockverify/blockchain/blockchain.py:131-144 | appending a mined block at the next position that links to the tail keeps genesis shape, index = position, validity and mining of every later block |
| `Ledger.GetBlock` | blockverify/blockchain/blockchain.py:146-158 | a block is returned exactly when 0 <= index < length, and it is the block at that position |
| `Ledger.FirstMatchFrom` | blockverify/blockchain/blockchain.py:170-173 | the scan from a start position returns the first position holding the digest, or reports that none from there on does |
| `Ledger.FindByHash` | blockverify/blockchain/blockchain.py:160-173 | nothing is returned exactly when no block holds the digest; otherwise the result holds it and is the earliest block that does |
| `Ledger.GetAllBlocks` | blockverify/blockchain/blockchain.py:208-210 | one export per block in chain order, each with exactly the six keys and reading back to its block |
| `Ledger.ChainLength` | blockverify/blockchain/blockchain.py:200-202 | the length is exactly the range of positions for which `get_block` returns a block |
| `Ledger.LatestBlock` | blockverify/blockchain/blockchain.py:204-206 | the tail is what `get_block(length - 1)` returns, and on a chain whose indexes are positions its index is length - 1 |
| `Ledger.IsChainValid` | blockverify/blockchain/blockchain.py:175-198 | true exactly when every block from position 1 on has an intact hash and links to its predecessor |
| `LedgerProperties.StoredHashTamperDetected` | blockverify/blockchain/blockchain.py:186-196 | overwriting a stored hash makes a valid chain invalid, unless the block is a lone genesis block |
| `LedgerProperties.ContentTamperDetected` | blockverify/blockchain/blockchain.py:190-192 | changing a hashed field of a block at position 1 or later, keeping its stored hash, makes a valid chain invalid unless the digest collides |
| `LedgerProperties.GenesisTamperUndetected` | blockverify/blockchain/blockchain.py:186-188 | replacing the genesis block while keeping its stored hash (or on a one-block chain, at all) leaves a valid chain valid |
| `LedgerProperties.FirstMatchFromAppend` | blockverify/blockchain/blockchain.py:170-173 | an append keeps an earlier match and otherwise adds one exactly at the new position when the new block holds the digest |
| `LedgerProperties.FindByHashAfterAppend` | blockverify/blockchain/blockchain.py:170-173 | after an append, lookup returns the earlier match if any, else the new block if it holds the digest, else nothing |
| `LedgerProperties.RecordedCertificateIsFound` | blockverify/blockchain/blockchain.py:131-144 | after appending data whose `certificate_hash` is h, looking up h finds a block holding h, the new one if h was not recorded before |
| `LedgerProperties.GenesisAnswersZeroDigest` | blockverify/blockchain/blockchain.py:107-108 | on every chain the ledger builds, looking up the all-zero digest returns the genesis block |
| `LedgerProperties.AccessorsAgree` | blockverify/blockchain/blockchain.py:200-206 | the tail's index is length - 1, `get_block(length - 1)` is the tail, the export has length entries, and `get_block(i)` returns the block whose index is i |
| `LedgerProperties.PositionsIncrease` | blockverify/blockchain/blockchain.py:133-134 | positions strictly increase along the chain, so no two blocks share one |
| `LedgerProperties.AppendSerially` | blockverify/blockchain/blockchain.py:131-144 | K serialised appends add exactly K blocks at consecutive positions with their own data, leave the old blocks untouched and keep the ledger invariant |
| `LedgerProperties.RecordTwoCertificates` | blockverify/blockchain/blockchain.py:117-173 | on a fresh ledger, recording `abc123` then `def456` gives a three-block valid chain where the first lands at position 1 linked to genesis, the second links to the first and is the tail, and each fingerprint looks up its own block |
| `LedgerProperties.TwoCertificateLookups` | blockverify/blockchain/blockchain.py:170-173 | on a genesis-only chain extended by blocks holding `abc123` then `def456`, each fingerprint finds its own block |

## Left out

- The singleton (`__new__`, `_instance`, `_initialized`) and both locks are not modelled: the model works on one explicit chain value and treats each operation as atomic. `LedgerProperties.AppendSerially` stands for concurrent callers getting through the chain lock one after another.
- SHA-256, the JSON text produced by `json.dumps` and `.encode()` are not modelled: the digest is the parameter `hash` applied to the canonical dictionary.
- `time.time()` is not modelled: the creation time is the parameter `now`, a `real` standing for the float.
- Payload values are strings (`map<string, string>`), which is what the upload workflow stores; a payload that `json.dumps` cannot serialise, which raises at `add_block` in Python, is not modelled.
- `find_by_hash` takes a string digest; a call with `None`, which in Python would match any block without a `certificate_hash` key, is not modelled.
- Aliasing is not modelled. In Python, `add_block` stores the caller's `data` dict by reference; `get_block`, `find_by_hash` and `get_latest_block` return the live stored `Block`; and `to_dict` returns the live `data` dict. Any caller can therefore change a recorded block in place and make `is_chain_valid` fail. In the model blocks are immutable values, so such an in-place change appears only as the `chain[i := …]` replacement of the tamper lemmas.
- `Blocks.FromDict` has no counterpart in the source: it is the inverse used to state that `to_dict` loses nothing.
- `__repr__` is debugging output and is not modelled.
- `services/hash_service.py`, `services/ocr_service.py` and the Django views, forms, models, URL configurations and admin are not part of this model.
- Ledger.AddBlock: requires that some nonce makes the candidate's hash start with `'0'`; SHA-256 guarantees no such nonce, and without one the Python loop never ends.
- Ledger.ProofOfWork: requires the same mineability hypothesis as `add_block`.
- LedgerProperties.AppendSerially: requires that every block is mineable, so that every append in the run terminates.
- LedgerProperties.RecordTwoCertificates: requires the same hypothesis as `AppendSerially`.
- LedgerProperties.ContentTamperDetected: holds only when the digest does not collide on the old and new contents, which SHA-256 makes likely but does not guarantee.
