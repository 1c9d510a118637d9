/** A single block of the certificate ledger: its six stored fields, the
    canonical dictionary its hash is computed from, the hash check, and the
    exported dictionary view.

    The digest itself (SHA-256 over the JSON text of the canonical
    dictionary) is not something the verifier can see, so every operation
    that hashes takes the digest function as a parameter `hash`.  Nothing is
    assumed about it except where a lemma says so explicitly. */
module Blocks {

  import opened Options
  import Json

  /** A hex digest, as returned by `hexdigest()`. */
  type Digest = string

  /** The creation time of a block (a float from the wall clock in Python). */
  type Timestamp = real

  /** The metadata a block carries: certificate fingerprint, student and
      institution fields, all strings. */
  type Payload = map<string, string>

  /** The digest of a canonical (key-sorted) dictionary. */
  type Hasher = Json.Object -> Digest

  /** `'0' * 64`: the all-zero digest used as the genesis block's parent
      and as its certificate fingerprint. */
  const ZeroDigest: Digest := "0000000000000000000000000000000000000000000000000000000000000000"

  /** The keys of the dictionary that is hashed. */
  const HashedKeys: set<string> := {"index", "timestamp", "data", "previous_hash", "nonce"}

  /** The keys of the exported dictionary: the hashed ones plus the hash. */
  const ExportedKeys: set<string> := HashedKeys + {"current_hash"}

  datatype Block = Block(
    index: nat,
    timestamp: Timestamp,
    data: Payload,
    previousHash: Digest,
    nonce: nat,
    currentHash: Digest)

  /** True when the two blocks agree on every field that is hashed
      (they may differ in their stored hash). */
  predicate SameContents(a: Block, b: Block)
  {
    && a.index == b.index
    && a.timestamp == b.timestamp
    && a.data == b.data
    && a.previousHash == b.previousHash
    && a.nonce == b.nonce
  }

  /** The payload as a JSON object of strings. */
  function PayloadValue(data: Payload): Json.Value
  {
    Json.Object(map k | k in data :: Json.Str(data[k]))
  }

  /** Reads a payload back from a JSON value; fails unless the value is an
      object whose members are all strings. */
  function PayloadOf(v: Json.Value): Option<Payload>
  {
    if v.Object? && forall k :: k in v.fields ==> v.fields[k].Str? then
      Some(map k | k in v.fields :: v.fields[k].s)
    else
      None
  }

  /** Encoding a payload loses nothing: it can be read back exactly. */
  lemma PayloadRoundTrip(data: Payload)
    ensures PayloadOf(PayloadValue(data)) == Some(data)
  {
    var v := PayloadValue(data);
    assert forall k :: k in v.fields ==> v.fields[k].Str?;
    var back := map k | k in v.fields :: v.fields[k].s;
    assert back.Keys == data.Keys;
    assert forall k :: k in back ==> back[k] == data[k];
    assert back == data;
    assert PayloadOf(v) == Some(back);
  }

  /** The canonical dictionary `calculate_hash` serialises: the five
      content fields of the block, never its stored hash. */
  function HashInput(b: Block): (o: Json.Object)
    ensures o.Keys == HashedKeys
    ensures "current_hash" !in o
  {
    map[
      "index" := Json.Int(b.index),
      "timestamp" := Json.Float(b.timestamp),
      "data" := PayloadValue(b.data),
      "previous_hash" := Json.Str(b.previousHash),
      "nonce" := Json.Int(b.nonce)]
  }

  /** Two blocks present the hasher with the same dictionary exactly when
      they agree on all five hashed fields: the canonical serialisation
      neither merges distinct contents nor depends on the stored hash. */
  lemma HashInputInjective(a: Block, b: Block)
    ensures HashInput(a) == HashInput(b) <==> SameContents(a, b)
  {
    if HashInput(a) == HashInput(b) {
      assert HashInput(a)["data"] == HashInput(b)["data"];
      PayloadRoundTrip(a.data);
      PayloadRoundTrip(b.data);
      assert HashInput(a)["index"] == HashInput(b)["index"];
      assert HashInput(a)["timestamp"] == HashInput(b)["timestamp"];
      assert HashInput(a)["previous_hash"] == HashInput(b)["previous_hash"];
      assert HashInput(a)["nonce"] == HashInput(b)["nonce"];
    }
  }

  /** `calculate_hash`: the digest of the block's canonical dictionary,
      which is the same whatever hash the block currently stores. */
  function CalculateHash(hash: Hasher, b: Block): (d: Digest)
    ensures d == hash(HashInput(b.(currentHash := [])))
  {
    hash(HashInput(b))
  }

  /** The stored hash is the one recomputed from the block's own fields. */
  predicate HashOk(hash: Hasher, b: Block)
  {
    b.currentHash == CalculateHash(hash, b)
  }

  /** The recomputed hash depends only on the hashed fields: rewriting the
      stored hash, or building another block with the same contents, does
      not change it. */
  lemma CalculateHashIgnoresStoredHash(hash: Hasher, a: Block, b: Block)
    requires SameContents(a, b)
    ensures CalculateHash(hash, a) == CalculateHash(hash, b)
  {
  }

  /** `Block(index, data, previous_hash)`: a block whose creation time is
      `now`, whose nonce starts at 0 and whose hash is computed at once. */
  function NewBlock(hash: Hasher, index: nat, now: Timestamp, data: Payload, previousHash: Digest): (b: Block)
    ensures b.index == index && b.timestamp == now && b.data == data
    ensures b.previousHash == previousHash && b.nonce == 0
    ensures HashOk(hash, b)
  {
    var unhashed := Block(index, now, data, previousHash, 0, []);
    unhashed.(currentHash := CalculateHash(hash, unhashed))
  }

  /** `to_dict`: the exported view of a block, the hashed dictionary plus
      the stored hash. */
  function ToDict(b: Block): (o: Json.Object)
    ensures o.Keys == ExportedKeys
    ensures o - {"current_hash"} == HashInput(b)
    ensures o["current_hash"] == Json.Str(b.currentHash)
  {
    HashInput(b)["current_hash" := Json.Str(b.currentHash)]
  }

  /** Reads a block back from an exported dictionary; fails unless every
      one of the six fields is present with the right shape. */
  function FromDict(o: Json.Object): Option<Block>
  {
    if && ExportedKeys <= o.Keys
       && o["index"].Int? && o["index"].i >= 0
       && o["timestamp"].Float?
       && PayloadOf(o["data"]).Some?
       && o["previous_hash"].Str?
       && o["nonce"].Int? && o["nonce"].i >= 0
       && o["current_hash"].Str?
    then
      Some(Block(
        o["index"].i,
        o["timestamp"].x,
        PayloadOf(o["data"]).value,
        o["previous_hash"].s,
        o["nonce"].i,
        o["current_hash"].s))
    else
      None
  }

  /** The exported view carries every stored field and nothing can be
      lost: reading it back gives the very block it came from. */
  lemma ToDictRoundTrip(b: Block)
    ensures FromDict(ToDict(b)) == Some(b)
  {
    PayloadRoundTrip(b.data);
  }

  /** Two blocks have the same exported view only when they are the same
      block. */
  lemma ToDictInjective(a: Block, b: Block)
    ensures ToDict(a) == ToDict(b) <==> a == b
  {
    ToDictRoundTrip(a);
    ToDictRoundTrip(b);
  }

}
