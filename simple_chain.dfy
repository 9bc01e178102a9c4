/** The block-only chain of index.ts: each block carries an arbitrary JSON
    value, addBlock mines a block over it linked to the tip and appends it,
    and isChainValid re-checks every block after the genesis block. */
module SimpleChain {
  import opened ProofOfWork
  import opened Blocks

  /** A JSON value, the `data: any` a block carries. */
  datatype Json =
    | JNull
    | JBool(b: bool)
    | JNumber(n: int)
    | JString(s: string)
    | JArray(items: seq<Json>)
    | JObject(members: seq<(string, Json)>)

  /** `{ message: "Genesis Block" }` */
  const GenesisData: Json := JObject([("message", JString("Genesis Block"))])

  type SimpleBlock = BlockRecord<Json>

  /** `createGenesisBlock()`: a block over GenesisData with previous hash "0",
      never mined. */
  function CreateGenesisBlock(h: Hasher<Json>, now: int): (g: SimpleBlock)
    ensures g.data == GenesisData && g.previousHash == "0" && g.nonce == 0 && g.timestamp == now
    ensures Consistent(h, g)
  {
    Unmined(h, GenesisData, "0", now)
  }

  class Blockchain {
    var chain: seq<SimpleBlock>
    const difficulty: nat
    const hasher: Hasher<Json>

    /** The chain is never empty and starts with the genesis block. */
    ghost predicate Valid()
      reads this
    {
      |chain| > 0 && chain[0] == CreateGenesisBlock(hasher, chain[0].timestamp)
    }

    constructor(difficulty: nat, hasher: Hasher<Json>, now: int)
      ensures Valid()
      ensures chain == [CreateGenesisBlock(hasher, now)]
      ensures this.difficulty == difficulty && this.hasher == hasher
      ensures Grown(hasher, chain) && ChainValid(hasher, chain)
    {
      this.chain := [CreateGenesisBlock(hasher, now)];
      this.difficulty := difficulty;
      this.hasher := hasher;
    }

    /** The tip; it always exists because the chain is never empty. */
    function GetLatestBlock(): (b: SimpleBlock)
      reads this
      requires Valid()
      ensures b == chain[|chain| - 1] && b in chain
    {
      chain[|chain| - 1]
    }

    /** Read-only view of the chain. */
    function GetChain(): (c: seq<SimpleBlock>)
      reads this
      requires Valid()
      ensures c == chain && |c| > 0 && c[0].data == GenesisData
    {
      chain
    }

    /** Mines a block over data linked to the tip and appends it. Mining
        returns only if some nonce seals the block. */
    method AddBlock(data: Json, now: int)
      requires Valid()
      requires Solvable(hasher, GetLatestBlock().hash, now, data, 0, difficulty)
      modifies this
      ensures Valid()
      ensures |chain| == |old(chain)| + 1 && chain[..|old(chain)|] == old(chain)
      ensures chain[|chain| - 1].data == data && chain[|chain| - 1].timestamp == now
      ensures chain[|chain| - 1].previousHash == old(GetLatestBlock()).hash
      ensures Sealed(hasher, chain[|chain| - 1], difficulty)
      ensures FirstSolution(hasher, chain[|chain| - 1], difficulty)
      ensures old(ChainValid(hasher, chain)) ==> ChainValid(hasher, chain)
      ensures old(Grown(hasher, chain)) ==> Grown(hasher, chain)
    {
      var previousBlock := GetLatestBlock();
      var newBlock := new Block(data, previousBlock.hash, now, hasher);
      SolvableStep(hasher, previousBlock.hash, now, data, 0, difficulty);
      newBlock.MineBlock(difficulty);
      var sealed := newBlock.Record();
      ChainValidAppend(hasher, chain, sealed);
      assert (chain + [sealed])[..|chain|] == chain;
      chain := chain + [sealed];
    }

    method IsChainValid() returns (valid: bool)
      ensures valid <==> ChainValid(hasher, chain)
    {
      valid := CheckChain(hasher, chain);
    }
  }

  /** A chain grown from the genesis block by appending blocks that are
      consistent and linked to the tip, which is exactly what the
      constructor followed by addBlock calls produces. */
  ghost predicate Grown(h: Hasher<Json>, chain: seq<SimpleBlock>)
    decreases |chain|
  {
    if |chain| <= 1 then
      |chain| == 1 && chain[0] == CreateGenesisBlock(h, chain[0].timestamp)
    else
      var prefix := chain[..|chain| - 1];
      Grown(h, prefix)
      && Consistent(h, chain[|chain| - 1])
      && chain[|chain| - 1].previousHash == prefix[|prefix| - 1].hash
  }

  /** Every chain built by the constructor and addBlock alone passes
      isChainValid. */
  lemma {:induction false} GrownChainIsValid(h: Hasher<Json>, chain: seq<SimpleBlock>)
    requires Grown(h, chain)
    ensures ChainValid(h, chain)
    decreases |chain|
  {
    if |chain| > 1 {
      var prefix := chain[..|chain| - 1];
      GrownChainIsValid(h, prefix);
      assert chain == prefix + [chain[|chain| - 1]];
      ChainValidAppend(h, prefix, chain[|chain| - 1]);
    }
  }
}
