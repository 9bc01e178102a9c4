/** Blocks, their digests and proof-of-work sealing, and chain validation.
    Both programs define the same Block class; they differ only in what the
    block carries (a list of transactions in index.js, an arbitrary JSON value
    in index.ts), which is the type parameter D here. */
module Blocks {
  import opened ProofOfWork

  /** The digest function: SHA-256 over the concatenation of previousHash,
      timestamp, the JSON encoding of the payload and nonce, rendered as hex.
      It is a foreign library call, so the model takes it as a parameter and
      every property below holds for every such function. */
  type Hasher<-D> = (string, int, D, nat) -> string

  /** The fields of a Block object, as a value. */
  datatype BlockRecord<D> = BlockRecord(
    data: D,
    previousHash: string,
    timestamp: int,
    nonce: nat,
    hash: string)

  /** `calculateHash()`: the digest of the four hashed fields; the stored
      hash itself is not an input. */
  function Digest<D>(h: Hasher<D>, b: BlockRecord<D>): string
  {
    h(b.previousHash, b.timestamp, b.data, b.nonce)
  }

  /** The stored hash is the one calculateHash() would return. */
  predicate Consistent<D>(h: Hasher<D>, b: BlockRecord<D>)
  {
    b.hash == Digest(h, b)
  }

  /** A block that is consistent and whose hash meets the target. */
  predicate Sealed<D>(h: Hasher<D>, b: BlockRecord<D>, difficulty: nat)
  {
    Consistent(h, b) && MeetsTarget(b.hash, difficulty)
  }

  /** Some nonce at or after `from` gives a digest that meets the target.
      The mining loop returns only under this condition. */
  ghost predicate Solvable<D>(h: Hasher<D>, previousHash: string, timestamp: int, data: D,
                        from: nat, difficulty: nat)
  {
    exists n: nat :: from <= n && MeetsTarget(h(previousHash, timestamp, data, n), difficulty)
  }

  /** Splits a solvable search into "the first candidate works" or "a later
      one does". */
  lemma SolvableStep<D>(h: Hasher<D>, previousHash: string, timestamp: int, data: D,
                        from: nat, difficulty: nat)
    requires Solvable(h, previousHash, timestamp, data, from, difficulty)
    ensures MeetsTarget(h(previousHash, timestamp, data, from), difficulty)
            || Solvable(h, previousHash, timestamp, data, from + 1, difficulty)
  {
  }

  /** No nonce below the block's own gives a digest that meets the target:
      the block carries the first solution the mining loop reaches from 0. */
  ghost predicate FirstSolution<D>(h: Hasher<D>, b: BlockRecord<D>, difficulty: nat)
  {
    forall n: nat :: n < b.nonce ==> !MeetsTarget(h(b.previousHash, b.timestamp, b.data, n), difficulty)
  }

  /** The state `new Block(data, previousHash)` leaves: nonce 0, timestamp the
      current time, hash calculated from those fields. */
  function Unmined<D>(h: Hasher<D>, data: D, previousHash: string, now: int): (b: BlockRecord<D>)
    ensures b.data == data && b.previousHash == previousHash && b.timestamp == now
    ensures b.nonce == 0 && Consistent(h, b)
  {
    BlockRecord(data, previousHash, now, 0, h(previousHash, now, data, 0))
  }

  /** Two blocks that agree on the hashed fields have the same digest,
      whatever their stored hashes: recalculating is reproducible. */
  lemma DigestDeterministic<D>(h: Hasher<D>, b1: BlockRecord<D>, b2: BlockRecord<D>)
    requires b1.previousHash == b2.previousHash && b1.timestamp == b2.timestamp
    requires b1.data == b2.data && b1.nonce == b2.nonce
    ensures Digest(h, b1) == Digest(h, b2)
  {
  }

  class Block<D> {
    var data: D
    var previousHash: string
    var timestamp: int
    var nonce: nat
    var hash: string
    /** The digest function calculateHash uses; fixed for the object. */
    const hasher: Hasher<D>

    function Record(): BlockRecord<D>
      reads this
    {
      BlockRecord(data, previousHash, timestamp, nonce, hash)
    }

    function CalculateHash(): (r: string)
      reads this
      ensures r == Digest(hasher, Record())
    {
      hasher(previousHash, timestamp, data, nonce)
    }

    constructor(data: D, previousHash: string, now: int, h: Hasher<D>)
      ensures hasher == h
      ensures Record() == Unmined(h, data, previousHash, now)
    {
      this.data := data;
      this.previousHash := previousHash;
      this.timestamp := now;
      this.nonce := 0;
      this.hasher := h;
      new;
      this.hash := CalculateHash();
    }

    /** The proof-of-work search: bump the nonce and recalculate the hash
        until the hash's leading characters equal the target. It returns only
        if a satisfying nonce exists, which is what the requires says; it then
        stops at the first one. */
    method MineBlock(difficulty: nat)
      requires MeetsTarget(hash, difficulty) || Solvable(hasher, previousHash, timestamp, data, nonce + 1, difficulty)
      modifies this
      ensures data == old(data) && previousHash == old(previousHash) && timestamp == old(timestamp)
      ensures MeetsTarget(hash, difficulty)
      ensures difficulty <= |hash| && AllZeros(hash[..difficulty])
      ensures old(nonce) <= nonce
      ensures nonce == old(nonce) <==> old(MeetsTarget(hash, difficulty))
      ensures nonce == old(nonce) ==> hash == old(hash)
      ensures nonce != old(nonce) ==> Consistent(hasher, Record())
      ensures old(Consistent(hasher, Record())) ==> Consistent(hasher, Record())
      ensures forall n :: old(nonce) < n < nonce ==> !MeetsTarget(hasher(previousHash, timestamp, data, n), difficulty)
      ensures difficulty == 0 ==> nonce == old(nonce) && hash == old(hash)
      ensures old(nonce) == 0 && old(Consistent(hasher, Record())) ==> FirstSolution(hasher, Record(), difficulty)
    {
      var target := Target(difficulty);
      MeetsZeroDifficulty(hash);
      ghost var goal: nat := nonce;
      if LeadingChars(hash, difficulty) != target {
        goal :| nonce + 1 <= goal && MeetsTarget(hasher(previousHash, timestamp, data, goal), difficulty);
      }
      while LeadingChars(hash, difficulty) != target
        invariant data == old(data) && previousHash == old(previousHash) && timestamp == old(timestamp)
        invariant old(nonce) <= nonce <= goal
        invariant nonce == old(nonce) ==> hash == old(hash)
        invariant nonce != old(nonce) ==> hash == hasher(previousHash, timestamp, data, nonce)
        invariant nonce == goal ==> MeetsTarget(hash, difficulty)
        invariant old(MeetsTarget(hash, difficulty)) ==> nonce == old(nonce)
        invariant forall n :: old(nonce) < n < nonce ==> !MeetsTarget(hasher(previousHash, timestamp, data, n), difficulty)
        decreases goal - nonce
      {
        nonce := nonce + 1;
        hash := CalculateHash();
      }
      MeetsTargetIffLeadingZeros(hash, difficulty);
    }
  }

  /** The check isChainValid makes at index i >= 1: the stored hash is the
      recalculated one and the back-link is the previous block's hash. */
  predicate LinkOk<D>(h: Hasher<D>, chain: seq<BlockRecord<D>>, i: nat)
    requires 1 <= i < |chain|
  {
    Consistent(h, chain[i]) && chain[i].previousHash == chain[i - 1].hash
  }

  /** What isChainValid accepts: every block after the genesis block passes
      the check; the genesis block is never checked. */
  predicate ChainValid<D>(h: Hasher<D>, chain: seq<BlockRecord<D>>)
  {
    forall i :: 1 <= i < |chain| ==> LinkOk(h, chain, i)
  }

  /** The loop of isChainValid: walk from index 1, return false at the first
      block that fails, true when all pass. */
  method CheckChain<D>(h: Hasher<D>, chain: seq<BlockRecord<D>>) returns (valid: bool)
    ensures valid <==> ChainValid(h, chain)
    ensures !valid ==> exists i :: 1 <= i < |chain| && !LinkOk(h, chain, i)
                                   && forall k :: 1 <= k < i ==> LinkOk(h, chain, k)
  {
    var i := 1;
    while i < |chain|
      invariant 1 <= i
      invariant forall k :: 1 <= k < i && k < |chain| ==> LinkOk(h, chain, k)
    {
      var currentBlock := chain[i];
      var previousBlock := chain[i - 1];
      if currentBlock.hash != Digest(h, currentBlock) {
        assert !LinkOk(h, chain, i);
        return false;
      }
      if currentBlock.previousHash != previousBlock.hash {
        assert !LinkOk(h, chain, i);
        return false;
      }
      i := i + 1;
    }
    return true;
  }

  /** Appending a block keeps a chain valid exactly when the new block is
      consistent and links to the old tip. */
  lemma {:induction false} ChainValidAppend<D>(h: Hasher<D>, chain: seq<BlockRecord<D>>, b: BlockRecord<D>)
    requires |chain| > 0
    ensures ChainValid(h, chain + [b]) <==>
            ChainValid(h, chain) && Consistent(h, b) && b.previousHash == chain[|chain| - 1].hash
  {
    var c := chain + [b];
    if ChainValid(h, c) {
      forall i | 1 <= i < |chain| ensures LinkOk(h, chain, i) {
        assert LinkOk(h, c, i);
      }
      assert LinkOk(h, c, |chain|);
    }
    if ChainValid(h, chain) && Consistent(h, b) && b.previousHash == chain[|chain| - 1].hash {
      forall i | 1 <= i < |c| ensures LinkOk(h, c, i) {
        if i < |chain| {
          assert LinkOk(h, chain, i);
        }
      }
    }
  }

  /** The genesis block's content is never checked: only its hash matters,
      as the back-link of block 1. */
  lemma GenesisNotChecked<D>(h: Hasher<D>, g1: BlockRecord<D>, g2: BlockRecord<D>, rest: seq<BlockRecord<D>>)
    requires g1.hash == g2.hash
    ensures ChainValid(h, [g1] + rest) <==> ChainValid(h, [g2] + rest)
  {
    var c1, c2 := [g1] + rest, [g2] + rest;
    forall i | 1 <= i < |c1| ensures LinkOk(h, c1, i) <==> LinkOk(h, c2, i) {
      assert c1[i] == c2[i] && c1[i - 1].hash == c2[i - 1].hash;
    }
  }

  /** Tampering with a non-genesis block of a valid chain is detected: if the
      stored hash is kept, the block fails its own check as soon as the change
      alters the digest; if the block is re-sealed under a new hash, the next
      block's back-link breaks; a block spliced in with a foreign back-link
      fails even when it is internally consistent. */
  lemma TamperingDetected<D>(h: Hasher<D>, chain: seq<BlockRecord<D>>, i: nat, b: BlockRecord<D>)
    requires ChainValid(h, chain) && 1 <= i < |chain|
    requires (b.hash == chain[i].hash && Digest(h, b) != Digest(h, chain[i]))
             || (b.hash != chain[i].hash && i + 1 < |chain|)
             || b.previousHash != chain[i - 1].hash
    ensures !ChainValid(h, chain[i := b])
  {
    var c := chain[i := b];
    assert LinkOk(h, chain, i);
    if b.hash == chain[i].hash && Digest(h, b) != Digest(h, chain[i]) {
      assert !LinkOk(h, c, i);
    } else if b.previousHash != chain[i - 1].hash {
      assert !LinkOk(h, c, i);
    } else {
      assert LinkOk(h, chain, i + 1);
      assert !LinkOk(h, c, i + 1);
    }
  }
}
