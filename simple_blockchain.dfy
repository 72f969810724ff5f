/** The ledger of simple_blockchain.py: blocks are appended unmined, and a
    bounds-checked `tamper_block` overwrites a block's transactions and
    re-seals it, so that only the I2 check of the following block can notice
    (TamperCaughtAtNext). */
module SimpleBlockchain {
  import opened Ledger
  import opened ProofOfWork

  /** Some nonce, from `from` on, makes the digest of these fields pass the
      slice test: the premise under which mining terminates. */
  ghost predicate SolvableFrom(sha: Hasher, index: nat, timestamp: Timestamp,
                               transactions: Payload, previousHash: string,
                               difficulty: int, from: nat)
  {
    exists n: nat :: from <= n && SliceTarget(sha(index, timestamp, transactions, previousHash, n), difficulty)
  }

  class Block {
    const index: nat
    const timestamp: Timestamp
    var transactions: Payload
    const previousHash: string
    var nonce: nat
    var hash: Digest

    function View(): BlockView
      reads this
    {
      BlockView(index, timestamp, transactions, previousHash, nonce, hash)
    }

    /** The clock reading `datetime.datetime.now()` is the parameter `now`. */
    constructor (sha: Hasher, index: nat, now: Timestamp, transactions: Payload, previousHash: string)
      ensures View() == BlockView(index, now, transactions, previousHash, 0,
                                  sha(index, now, transactions, previousHash, 0))
      ensures Sealed(sha, View())
    {
      this.index := index;
      this.timestamp := now;
      this.transactions := transactions;
      this.previousHash := previousHash;
      this.nonce := 0;
      this.hash := sha(index, now, transactions, previousHash, 0);
    }

    /** The digest of the five fields in source order; a block storing it
        is sealed. */
    function CalculateHash(sha: Hasher): (h: Digest)
      reads this
      ensures h == Recompute(sha, View()) && Sealed(sha, View().(hash := h))
    {
      sha(index, timestamp, transactions, previousHash, nonce)
    }

    /** Proof of work with the exit test `hash[:difficulty] == '0' * difficulty`
        on the STORED hash. Only runs that end are modelled: either the stored
        hash passes or some later nonce does (by SliceTargetUnreachable no
        nonce does when the difficulty exceeds 64 or lies in -63..-1). */
    method MineBlock(sha: Hasher, difficulty: int)
      requires SliceTarget(hash, difficulty)
            || SolvableFrom(sha, index, timestamp, transactions, previousHash, difficulty, nonce + 1)
      modifies this`nonce, this`hash
      ensures SliceTarget(hash, difficulty)
      ensures old(nonce) <= nonce
      ensures old(SliceTarget(hash, difficulty)) ==> nonce == old(nonce) && hash == old(hash)
      ensures !old(SliceTarget(hash, difficulty)) ==> old(nonce) < nonce && hash == CalculateHash(sha)
      ensures forall n :: old(nonce) < n < nonce ==>
                !SliceTarget(sha(index, timestamp, transactions, previousHash, n), difficulty)
      ensures old(Sealed(sha, View())) ==> Sealed(sha, View())
    {
      ghost var bound: nat := nonce;
      if !SliceTarget(hash, difficulty) {
        bound :| nonce + 1 <= bound
              && SliceTarget(sha(index, timestamp, transactions, previousHash, bound), difficulty);
      }
      var target := ZeroTarget(difficulty);
      while PrefixSlice(hash, difficulty) != target
        invariant old(nonce) <= nonce <= bound
        invariant nonce == bound ==> SliceTarget(hash, difficulty)
        invariant bound == old(nonce) || SliceTarget(sha(index, timestamp, transactions, previousHash, bound), difficulty)
        invariant nonce == old(nonce) ==> hash == old(hash)
        invariant nonce != old(nonce) ==> hash == CalculateHash(sha)
        invariant forall n :: old(nonce) < n < nonce ==>
                    !SliceTarget(sha(index, timestamp, transactions, previousHash, n), difficulty)
        decreases bound - nonce
      {
        nonce := nonce + 1;
        hash := CalculateHash(sha);
      }
    }
  }

  /** Snapshots of a sequence of blocks. */
  ghost function Views(bs: seq<Block>): seq<BlockView>
    reads bs
  {
    seq(|bs|, i requires 0 <= i < |bs| reads bs => bs[i].View())
  }

  /** The genesis block of this implementation: index 0, the one-entry list
      ["Genesis Block"], previous hash "0", nonce 0. */
  function GenesisView(sha: Hasher, now: Timestamp): (g: BlockView)
    ensures g.index == 0 && g.nonce == 0 && g.previousHash == "0"
    ensures g.transactions == Entries(["Genesis Block"]) && Sealed(sha, g)
  {
    var payload := Entries(["Genesis Block"]);
    BlockView(0, now, payload, "0", 0, sha(0, now, payload, "0", 0))
  }

  /** The effect of `tamper_block(k, transactions)` on the snapshots: an
      index outside 0..|s|-1 changes nothing; otherwise block k gets the new
      transactions and a hash recomputed from them. */
  function Tampered(sha: Hasher, s: seq<BlockView>, k: int, transactions: Payload): (t: seq<BlockView>) {
    if 0 <= k < |s| then s[k := Reseal(sha, s[k].(transactions := transactions))] else s
  }

  /** What a tamper leaves in place: the length, every other block, and every
      field of block k but its transactions and hash; block k is sealed. */
  lemma TamperedShape(sha: Hasher, s: seq<BlockView>, k: int, transactions: Payload)
    ensures var t := Tampered(sha, s, k, transactions);
            && |t| == |s|
            && (forall i :: 0 <= i < |s| && i != k ==> t[i] == s[i])
            && (0 <= k < |s| ==>
                  && t[k].transactions == transactions && Sealed(sha, t[k])
                  && t[k].(transactions := s[k].transactions, hash := s[k].hash) == s[k])
            && (!(0 <= k < |s|) ==> t == s)
  {
  }

  /** On an intact chain, a tamper at an index in range goes unnoticed
      exactly when it hits the tail block or the recomputed hash equals the
      old one. So tampering the tail is never detected, and tampering an
      earlier block is detected, by I2 at the next position, whenever the
      new transactions change the hash. */
  lemma TamperDetection(sha: Hasher, s: seq<BlockView>, k: int, transactions: Payload)
    requires ChainIntact(sha, s) && 0 <= k < |s|
    ensures ChainIntact(sha, Tampered(sha, s, k, transactions))
        <==> k == |s| - 1 || Tampered(sha, s, k, transactions)[k].hash == s[k].hash
  {
    IntactReplace(sha, s, k, Reseal(sha, s[k].(transactions := transactions)));
  }

  /** Where a tamper before the tail that changes the hash is noticed: the
      tampered block itself is sealed again, and so is block k+1, but block
      k+1's link to block k breaks; every other position passes both checks. */
  lemma {:induction false} TamperCaughtAtNext(sha: Hasher, s: seq<BlockView>, k: int, transactions: Payload)
    requires ChainIntact(sha, s) && 0 <= k < |s| - 1
    requires Tampered(sha, s, k, transactions)[k].hash != s[k].hash
    ensures var t := Tampered(sha, s, k, transactions);
            && Sealed(sha, t[k + 1]) && t[k + 1].previousHash != t[k].hash
            && forall i :: 1 <= i < |s| && i != k + 1 ==> PassesChecks(sha, t, i)
  {
    var t := Tampered(sha, s, k, transactions);
    assert PassesChecks(sha, s, k + 1) && t[k + 1] == s[k + 1];
    forall i | 1 <= i < |s| && i != k + 1
      ensures PassesChecks(sha, t, i)
    {
      assert PassesChecks(sha, s, i);
    }
  }

  /** Tampering the tail of an intact chain always goes unnoticed. */
  lemma TamperTailUndetected(sha: Hasher, s: seq<BlockView>, transactions: Payload)
    requires ChainIntact(sha, s) && |s| >= 1
    ensures ChainIntact(sha, Tampered(sha, s, |s| - 1, transactions))
  {
    TamperDetection(sha, s, |s| - 1, transactions);
  }

  class Blockchain {
    const sha: Hasher
    var chain: seq<Block>

    /** Never empty, and each block's (constant) index is its position, so
        no block object appears at two positions. */
    ghost predicate Valid()
      reads this, chain
    {
      && |chain| >= 1
      && (forall i :: 0 <= i < |chain| ==> chain[i].index == i)
    }

    ghost function Blocks(): seq<BlockView>
      reads this, chain
    {
      Views(chain)
    }

    constructor (sha: Hasher, now: Timestamp)
      ensures Valid() && fresh(chain[0]) && this.sha == sha
      ensures Blocks() == [GenesisView(sha, now)]
      ensures ChainIntact(sha, Blocks())
    {
      var genesis := CreateGenesisBlock(sha, now);
      this.sha := sha;
      this.chain := [genesis];
      new;
      GenesisOnlyIntact(sha, Blocks()[0]);
    }

    static method CreateGenesisBlock(sha: Hasher, now: Timestamp) returns (g: Block)
      ensures fresh(g) && g.View() == GenesisView(sha, now)
    {
      g := new Block(sha, 0, now, Entries(["Genesis Block"]), "0");
    }

    /** Append an unmined block linked to the current tail. */
    method AddBlock(transactions: Payload, now: Timestamp)
      requires Valid()
      modifies this
      ensures Valid()
      ensures |chain| == old(|chain|) + 1 && chain[..old(|chain|)] == old(chain)
      ensures fresh(chain[old(|chain|)])
      ensures Blocks() == old(Blocks()) + [BlockView(old(|chain|), now, transactions,
                                                    old(Blocks()[|chain| - 1].hash), 0,
                                                    sha(old(|chain|), now, transactions,
                                                        old(Blocks()[|chain| - 1].hash), 0))]
      ensures ChainIntact(sha, Blocks()) <==> old(ChainIntact(sha, Blocks()))
    {
      ghost var before := Blocks();
      var previousBlock := chain[|chain| - 1];
      var newBlock := new Block(sha, |chain|, now, transactions, previousBlock.hash);
      chain := chain + [newBlock];
      assert Blocks() == before + [newBlock.View()];
      IntactAppend(sha, before, newBlock.View());
    }

    /** The integrity check: I1 and I2 at positions 1..|chain|-1, stopping at
        the first failure. */
    method IsChainValid() returns (valid: bool)
      ensures valid == ChainIntact(sha, Blocks())
    {
      var i := 1;
      while i < |chain|
        invariant 1 <= i && (i <= |chain| || |chain| == 0)
        invariant forall j :: 1 <= j < i && j < |chain| ==> PassesChecks(sha, Blocks(), j)
      {
        var currentBlock := chain[i];
        var previousBlock := chain[i - 1];
        if currentBlock.hash != currentBlock.CalculateHash(sha) {
          assert !PassesChecks(sha, Blocks(), i);
          return false;
        }
        if currentBlock.previousHash != previousBlock.hash {
          assert !PassesChecks(sha, Blocks(), i);
          return false;
        }
        i := i + 1;
      }
      return true;
    }

    /** Overwrite block `index`'s transactions and recompute its hash, when
        the index is in range; otherwise do nothing. */
    method TamperBlock(index: int, newTransactions: Payload)
      requires Valid()
      modifies chain
      ensures Valid() && chain == old(chain)
      ensures Blocks() == Tampered(sha, old(Blocks()), index, newTransactions)
    {
      if 0 <= index < |chain| {
        ghost var before := Blocks();
        var target := chain[index];
        target.transactions := newTransactions;
        target.hash := target.CalculateHash(sha);
        assert Blocks() == Tampered(sha, before, index, newTransactions);
      }
    }
  }

  /** The first part of the script at the end of simple_blockchain.py, with
      its clock readings t0, t1, t2 as parameters: a new chain and two
      appended blocks. */
  method DemonstrationChain(sha: Hasher, t0: Timestamp, t1: Timestamp, t2: Timestamp)
    returns (blockchain: Blockchain)
    ensures fresh(blockchain) && fresh(blockchain.chain) && blockchain.Valid() && blockchain.sha == sha
    ensures |blockchain.Blocks()| == 3 && ChainIntact(sha, blockchain.Blocks())
    ensures var g := sha(0, t0, Entries(["Genesis Block"]), "0", 0);
            var paid := Entries(["Alice pays Bob 10 BTC"]);
            blockchain.Blocks()[1] == BlockView(1, t1, paid, g, 0, sha(1, t1, paid, g, 0))
  {
    blockchain := new Blockchain(sha, t0);
    ghost var genesis := blockchain.chain[0];
    blockchain.AddBlock(Entries(["Alice pays Bob 10 BTC"]), t1);
    ghost var s1, block1 := blockchain.Blocks(), blockchain.chain[1];
    blockchain.AddBlock(Entries(["Bob pays Charlie 5 BTC"]), t2);
    assert blockchain.chain == [genesis, block1, blockchain.chain[2]];
    assert blockchain.Blocks()[1] == s1[1];
  }

  /** The whole script: the chain above, a check, block 1 tampered, a
      second check. The first check passes; the second fails exactly when
      the tampered block's new hash differs from the one block 2 links to. */
  method Demonstration(sha: Hasher, t0: Timestamp, t1: Timestamp, t2: Timestamp)
    returns (before: bool, after: bool)
    ensures before
    ensures var g := sha(0, t0, Entries(["Genesis Block"]), "0", 0);
            var original := sha(1, t1, Entries(["Alice pays Bob 10 BTC"]), g, 0);
            var forged := sha(1, t1, Entries(["Alice pays Eve 20 BTC"]), g, 0);
            after <==> forged == original
  {
    var blockchain := DemonstrationChain(sha, t0, t1, t2);
    ghost var s := blockchain.Blocks();
    before := blockchain.IsChainValid();
    blockchain.TamperBlock(1, Entries(["Alice pays Eve 20 BTC"]));
    TamperDetection(sha, s, 1, Entries(["Alice pays Eve 20 BTC"]));
    after := blockchain.IsChainValid();
  }
}
