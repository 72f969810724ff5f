/** Shared vocabulary of the two ledger implementations: the values a block
    holds, the hash primitive they are sealed with, and the integrity
    invariants the validators decide.

    I1 (sealed): a block's stored hash is the digest of its five other fields.
    I2 (linked): every non-genesis block stores the hash of its predecessor. */
module Ledger {

  /** The wall-clock value a block captures when it is built (a float of
      seconds in one implementation, a datetime in the other). Validation
      never inspects it; it only enters the digest. */
  type Timestamp(==)

  predicate IsHexDigit(c: char) {
    '0' <= c <= '9' || 'a' <= c <= 'f'
  }

  /** What `hexdigest()` of SHA-256 returns: 64 lower-case hex characters. */
  type Digest = s: string | |s| == 64 && forall i :: 0 <= i < |s| ==> IsHexDigit(s[i])
    witness seq(64, _ => '0')

  /** The `transactions` attribute: the genesis block of one implementation
      holds a bare string, every other block holds a list of strings. */
  datatype Payload = Text(text: string) | Entries(entries: seq<string>)

  /** SHA-256 over the rendering of (index, timestamp, transactions,
      previous_hash, nonce), in that order. The digest and the rendering are
      not modelled; every result below holds for any such function. */
  type Hasher = (nat, Timestamp, Payload, string, nat) -> Digest

  /** A snapshot of the six attributes of a block. */
  datatype BlockView = BlockView(
    index: nat,
    timestamp: Timestamp,
    transactions: Payload,
    previousHash: string,
    nonce: nat,
    hash: Digest)

  /** `calculate_hash()` evaluated on a snapshot. */
  function Recompute(sha: Hasher, b: BlockView): (d: Digest) {
    sha(b.index, b.timestamp, b.transactions, b.previousHash, b.nonce)
  }

  /** I1 */
  predicate Sealed(sha: Hasher, b: BlockView) {
    b.hash == Recompute(sha, b)
  }

  /** The two checks `is_chain_valid` makes at position i: I1 for block i,
      and I2 between blocks i-1 and i. */
  predicate PassesChecks(sha: Hasher, s: seq<BlockView>, i: nat)
    requires 1 <= i < |s|
  {
    Sealed(sha, s[i]) && s[i].previousHash == s[i - 1].hash
  }

  /** What `is_chain_valid` accepts: both checks at every position
      1..|s|-1. The genesis block itself is never examined. */
  predicate ChainIntact(sha: Hasher, s: seq<BlockView>) {
    forall i :: 1 <= i < |s| ==> PassesChecks(sha, s, i)
  }

  /** Re-sealing a block: its hash recomputed from its current fields. */
  function Reseal(sha: Hasher, b: BlockView): (r: BlockView)
    ensures Sealed(sha, r)
    ensures r.(hash := b.hash) == b
  {
    b.(hash := Recompute(sha, b))
  }

  /** The digest depends on the five fields and on nothing else, in
      particular not on the stored hash: two evaluations over equal fields
      agree. */
  lemma HashDeterminedByFields(sha: Hasher, a: BlockView, b: BlockView)
    requires a.index == b.index && a.timestamp == b.timestamp
    requires a.transactions == b.transactions
    requires a.previousHash == b.previousHash && a.nonce == b.nonce
    ensures Recompute(sha, a) == Recompute(sha, b)
  {
  }

  /** A chain of the genesis block alone is intact, whatever that block holds. */
  lemma GenesisOnlyIntact(sha: Hasher, g: BlockView)
    ensures ChainIntact(sha, [g])
  {
  }

  /** Appending: the longer chain is intact exactly when the shorter one is,
      the new block is sealed and it links to the old tail. */
  lemma {:induction false} IntactAppend(sha: Hasher, s: seq<BlockView>, b: BlockView)
    requires |s| >= 1
    ensures ChainIntact(sha, s + [b])
        <==> ChainIntact(sha, s) && Sealed(sha, b) && b.previousHash == s[|s| - 1].hash
  {
    var t := s + [b];
    assert t[|s|] == b && t[|s| - 1] == s[|s| - 1];
    if ChainIntact(sha, t) {
      assert PassesChecks(sha, t, |s|);
      forall i | 1 <= i < |s|
        ensures PassesChecks(sha, s, i)
      {
        assert PassesChecks(sha, t, i);
        assert t[i] == s[i] && t[i - 1] == s[i - 1];
      }
    }
    if ChainIntact(sha, s) && Sealed(sha, b) && b.previousHash == s[|s| - 1].hash {
      forall i | 1 <= i < |t|
        ensures PassesChecks(sha, t, i)
      {
        if i < |s| {
          assert PassesChecks(sha, s, i);
          assert t[i] == s[i] && t[i - 1] == s[i - 1];
        }
      }
    }
  }

  /** The genesis block is never examined: replacing it by any block with the
      same stored hash changes nothing in the verdict. */
  lemma {:induction false} GenesisNeverChecked(sha: Hasher, s: seq<BlockView>, g: BlockView)
    requires |s| >= 1 && g.hash == s[0].hash
    ensures ChainIntact(sha, s[0 := g]) <==> ChainIntact(sha, s)
  {
    var t := s[0 := g];
    forall i | 1 <= i < |s|
      ensures PassesChecks(sha, t, i) <==> PassesChecks(sha, s, i)
    {
      assert t[i] == s[i] && t[i - 1].hash == s[i - 1].hash;
    }
  }

  /** Replacing block k of an intact chain by a block with the same
      previous_hash: the result is intact exactly when the replacement is
      sealed (not asked of the genesis block, which is never examined) and,
      unless k is the tail, keeps the stored hash the next block links to. */
  lemma {:induction false} IntactReplace(sha: Hasher, s: seq<BlockView>, k: nat, b: BlockView)
    requires ChainIntact(sha, s)
    requires k < |s| && (k >= 1 ==> b.previousHash == s[k].previousHash)
    ensures ChainIntact(sha, s[k := b])
        <==> (k == 0 || Sealed(sha, b)) && (k == |s| - 1 || b.hash == s[k].hash)
  {
    var t := s[k := b];
    if ChainIntact(sha, t) {
      if k >= 1 {
        assert PassesChecks(sha, t, k);
      }
      if k < |s| - 1 {
        assert PassesChecks(sha, t, k + 1) && PassesChecks(sha, s, k + 1);
        assert t[k + 1] == s[k + 1];
      }
    }
    if (k == 0 || Sealed(sha, b)) && (k == |s| - 1 || b.hash == s[k].hash) {
      forall i | 1 <= i < |t|
        ensures PassesChecks(sha, t, i)
      {
        assert PassesChecks(sha, s, i);
      }
    }
  }
}
