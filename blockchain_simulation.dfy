/** The ledger of blockchain_simulation.py: every appended block is mined to
    the chain's difficulty (default 4), and the chain offers no tamper
    operation; its demonstration overwrites a block's transactions directly
    and leaves the stored hash stale. */
module BlockchainSimulation {
  import opened Ledger
  import opened ProofOfWork

  /** Some nonce, from `from` on, makes the digest of these fields pass the
      `startswith` test: the premise under which mining terminates. */
  ghost predicate SolvableFrom(sha: Hasher, index: nat, timestamp: Timestamp,
                               transactions: Payload, previousHash: string,
                               difficulty: int, from: nat)
  {
    exists n: nat :: from <= n && StartsWithTarget(sha(index, timestamp, transactions, previousHash, n), difficulty)
  }

  class Block {
    const index: nat
    const timestamp: Timestamp
    var transactions: Payload
    const previousHash: string
    var nonce: nat
    var hash: Digest

    function View(): BlockView
      reads this
    {
      BlockView(index, timestamp, transactions, previousHash, nonce, hash)
    }

    /** The clock reading `time.time()` is the parameter `now`. */
    constructor (sha: Hasher, index: nat, now: Timestamp, transactions: Payload, previousHash: string)
      ensures View() == BlockView(index, now, transactions, previousHash, 0,
                                  sha(index, now, transactions, previousHash, 0))
      ensures Sealed(sha, View())
    {
      this.index := index;
      this.timestamp := now;
      this.transactions := transactions;
      this.previousHash := previousHash;
      this.nonce := 0;
      this.hash := sha(index, now, transactions, previousHash, 0);
    }

    /** The digest of the five fields in source order; a block storing it
        is sealed. */
    function CalculateHash(sha: Hasher): (h: Digest)
      reads this
      ensures h == Recompute(sha, View()) && Sealed(sha, View().(hash := h))
    {
      sha(index, timestamp, transactions, previousHash, nonce)
    }

    /** Proof of work: bump the nonce and rehash until the stored hash starts
        with `difficulty` zeros. The loop tests the STORED hash first, so a
        hash that already passes is kept as it is. Only runs that end are
        modelled: either the stored hash passes or some later nonce does. */
    method MineBlock(sha: Hasher, difficulty: int)
      requires StartsWithTarget(hash, difficulty)
            || SolvableFrom(sha, index, timestamp, transactions, previousHash, difficulty, nonce + 1)
      modifies this`nonce, this`hash
      ensures StartsWithTarget(hash, difficulty)
      ensures old(nonce) <= nonce
      ensures old(StartsWithTarget(hash, difficulty)) ==> nonce == old(nonce) && hash == old(hash)
      ensures !old(StartsWithTarget(hash, difficulty)) ==> old(nonce) < nonce && hash == CalculateHash(sha)
      ensures forall n :: old(nonce) < n < nonce ==>
                !StartsWithTarget(sha(index, timestamp, transactions, previousHash, n), difficulty)
      ensures old(Sealed(sha, View())) ==> Sealed(sha, View())
    {
      ghost var bound: nat := nonce;
      if !StartsWithTarget(hash, difficulty) {
        bound :| nonce + 1 <= bound
              && StartsWithTarget(sha(index, timestamp, transactions, previousHash, bound), difficulty);
      }
      var target := ZeroTarget(difficulty);
      while !StartsWith(hash, target)
        invariant old(nonce) <= nonce <= bound
        invariant nonce == bound ==> StartsWithTarget(hash, difficulty)
        invariant bound == old(nonce) || StartsWithTarget(sha(index, timestamp, transactions, previousHash, bound), difficulty)
        invariant nonce == old(nonce) ==> hash == old(hash)
        invariant nonce != old(nonce) ==> hash == CalculateHash(sha)
        invariant forall n :: old(nonce) < n < nonce ==>
                    !StartsWithTarget(sha(index, timestamp, transactions, previousHash, n), difficulty)
        decreases bound - nonce
      {
        nonce := nonce + 1;
        hash := CalculateHash(sha);
      }
    }
  }

  /** Snapshots of a sequence of blocks. */
  ghost function Views(bs: seq<Block>): seq<BlockView>
    reads bs
  {
    seq(|bs|, i requires 0 <= i < |bs| reads bs => bs[i].View())
  }

  lemma ViewsAppend(bs: seq<Block>, b: Block)
    ensures Views(bs + [b]) == Views(bs) + [b.View()]
  {
  }

  /** The genesis block of this implementation: index 0, the bare string
      "Genesis Block", previous hash "0", nonce 0, never mined. */
  function GenesisView(sha: Hasher, now: Timestamp): (g: BlockView)
    ensures g.index == 0 && g.nonce == 0 && g.previousHash == "0"
    ensures g.transactions == Text("Genesis Block") && Sealed(sha, g)
  {
    var payload := Text("Genesis Block");
    BlockView(0, now, payload, "0", 0, sha(0, now, payload, "0", 0))
  }

  /** I3: every block after genesis passes the proof-of-work test. */
  ghost predicate MinedFrom1(s: seq<BlockView>, difficulty: int) {
    forall i :: 1 <= i < |s| ==> StartsWithTarget(s[i].hash, difficulty)
  }

  /** Appending keeps I3 exactly when the new block passes the test. */
  lemma {:induction false} MinedAppend(s: seq<BlockView>, b: BlockView, difficulty: int)
    requires |s| >= 1
    ensures MinedFrom1(s + [b], difficulty) <==> MinedFrom1(s, difficulty) && StartsWithTarget(b.hash, difficulty)
  {
    var t := s + [b];
    assert t[|s|] == b;
    assert forall i :: 1 <= i < |s| ==> t[i] == s[i];
  }

  /** b is what `Block(index, transactions, previous_hash)` built at time
      `now` and then mined to `difficulty` holds: those fields, a sealed hash
      that passes the `startswith` test, and a nonce below which no nonce
      passes (the search starts at 0 and stops at the first success). */
  ghost predicate FreshlyMined(sha: Hasher, b: BlockView, index: nat, now: Timestamp,
                               transactions: Payload, previousHash: string, difficulty: int)
  {
    && b.index == index && b.timestamp == now
    && b.transactions == transactions && b.previousHash == previousHash
    && Sealed(sha, b) && StartsWithTarget(b.hash, difficulty)
    && forall n :: 0 <= n < b.nonce ==>
         !StartsWithTarget(sha(index, now, transactions, previousHash, n), difficulty)
  }

  class Blockchain {
    const sha: Hasher
    var chain: seq<Block>
    const difficulty: int

    /** Never empty, and each block's (constant) index is its position, so
        no block object appears at two positions. */
    ghost predicate Valid()
      reads this, chain
    {
      && |chain| >= 1
      && (forall i :: 0 <= i < |chain| ==> chain[i].index == i)
    }

    ghost function Blocks(): seq<BlockView>
      reads this, chain
    {
      Views(chain)
    }

    /** The genesis block is built before the difficulty is recorded and is
        never mined. */
    constructor (sha: Hasher, now: Timestamp, difficulty: int := 4)
      ensures Valid() && fresh(chain[0])
      ensures this.sha == sha && this.difficulty == difficulty
      ensures Blocks() == [GenesisView(sha, now)]
      ensures ChainIntact(sha, Blocks()) && MinedFrom1(Blocks(), difficulty)
    {
      var genesis := CreateGenesisBlock(sha, now);
      this.sha := sha;
      this.chain := [genesis];
      this.difficulty := difficulty;
      new;
      GenesisOnlyIntact(sha, Blocks()[0]);
    }

    static method CreateGenesisBlock(sha: Hasher, now: Timestamp) returns (g: Block)
      ensures fresh(g) && g.View() == GenesisView(sha, now)
    {
      g := new Block(sha, 0, now, Text("Genesis Block"), "0");
    }

    method GetLatestBlock() returns (b: Block)
      requires Valid()
      ensures b == chain[|chain| - 1] && b.View() == Blocks()[|Blocks()| - 1]
      ensures b.index == |chain| - 1
    {
      b := chain[|chain| - 1];
    }

    /** Build the next block on the current tail, mine it, append it. */
    method AddBlock(transactions: Payload, now: Timestamp)
      requires Valid()
      requires SolvableFrom(sha, |chain|, now, transactions, chain[|chain| - 1].hash, difficulty, 0)
      modifies this
      ensures Valid()
      ensures |chain| == old(|chain|) + 1 && chain[..old(|chain|)] == old(chain)
      ensures fresh(chain[old(|chain|)])
      ensures Blocks()[..old(|chain|)] == old(Blocks())
      ensures FreshlyMined(sha, Blocks()[old(|chain|)], old(|chain|), now, transactions,
                           old(Blocks()[|chain| - 1].hash), difficulty)
      ensures ChainIntact(sha, Blocks()) <==> old(ChainIntact(sha, Blocks()))
      ensures MinedFrom1(Blocks(), difficulty) <==> old(MinedFrom1(Blocks(), difficulty))
    {
      ghost var before := Blocks();
      ghost var oldChain := chain;
      var previousBlock := GetLatestBlock();
      var newBlock := MinedBlock(sha, |chain|, now, transactions, previousBlock.hash, difficulty);
      assert Views(oldChain) == before;
      chain := chain + [newBlock];
      ViewsAppend(oldChain, newBlock);
      assert Blocks()[|oldChain|] == newBlock.View() && previousBlock.hash == before[|before| - 1].hash;
      IntactAppend(sha, before, newBlock.View());
      MinedAppend(before, newBlock.View(), difficulty);
    }

    /** `Block(...)` followed by `mine_block(difficulty)`. */
    static method MinedBlock(sha: Hasher, index: nat, now: Timestamp, transactions: Payload,
                             previousHash: string, difficulty: int) returns (b: Block)
      requires SolvableFrom(sha, index, now, transactions, previousHash, difficulty, 0)
      ensures fresh(b)
      ensures FreshlyMined(sha, b.View(), index, now, transactions, previousHash, difficulty)
    {
      b := new Block(sha, index, now, transactions, previousHash);
      ghost var n: nat :| StartsWithTarget(sha(index, now, transactions, previousHash, n), difficulty);
      assert n == 0 || SolvableFrom(sha, index, now, transactions, previousHash, difficulty, 1);
      b.MineBlock(sha, difficulty);
    }

    /** The integrity check: I1 and I2 at positions 1..|chain|-1, stopping at
        the first failure. The messages it prints are not modelled. */
    method IsChainValid() returns (valid: bool)
      ensures valid == ChainIntact(sha, Blocks())
    {
      var i := 1;
      while i < |chain|
        invariant 1 <= i && (i <= |chain| || |chain| == 0)
        invariant forall j :: 1 <= j < i && j < |chain| ==> PassesChecks(sha, Blocks(), j)
      {
        var currentBlock := chain[i];
        var previousBlock := chain[i - 1];
        if currentBlock.hash != currentBlock.CalculateHash(sha) {
          assert !PassesChecks(sha, Blocks(), i);
          return false;
        }
        if currentBlock.previousHash != previousBlock.hash {
          assert !PassesChecks(sha, Blocks(), i);
          return false;
        }
        i := i + 1;
      }
      return true;
    }
  }

  /** The demonstration's tampering: block k's transactions are overwritten
      in place and its stored hash is left as it was. */
  function StaleEdit(s: seq<BlockView>, k: nat, transactions: Payload): (r: seq<BlockView>)
    requires k < |s|
    ensures |r| == |s| && forall i :: 0 <= i < |s| && i != k ==> r[i] == s[i]
    ensures r[k].transactions == transactions && r[k].(transactions := s[k].transactions) == s[k]
  {
    s[k := s[k].(transactions := transactions)]
  }

  /** On an intact chain, such an edit goes unnoticed exactly when it is made
      to the genesis block (never examined) or the digest of the edited
      fields happens to equal the stale hash; for a hash without that
      collision, editing any later block is detected. */
  lemma StaleEditDetection(sha: Hasher, s: seq<BlockView>, k: nat, transactions: Payload)
    requires ChainIntact(sha, s) && k < |s|
    ensures ChainIntact(sha, StaleEdit(s, k, transactions))
        <==> k == 0 || Recompute(sha, StaleEdit(s, k, transactions)[k]) == s[k].hash
  {
    IntactReplace(sha, s, k, s[k].(transactions := transactions));
  }
}
