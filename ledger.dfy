/** The full ledger of index.js: blocks carry transactions, a pending pool
    collects admitted transfers, mining seals the pool into a new block and
    seeds the next pool with the miner's reward, and balances are derived by
    replaying every sealed transaction. */
module Ledger {
  import opened ProofOfWork
  import opened Blocks

  datatype Option<T> = None | Some(value: T)

  /** A transfer; a missing sender (null) marks a mining reward. */
  datatype Transaction = Transaction(sender: Option<string>, recipient: string, amount: int)

  type LedgerBlock = BlockRecord<seq<Transaction>>

  /** What addTransaction did; each value stands for the message it logs. */
  datatype Admission = Added | MissingParty | NonPositiveAmount | InsufficientBalance

  /** `transaction.sender && transaction.recipient` is truthy: null and the
      empty string are falsy. */
  predicate HasParties(tx: Transaction)
  {
    tx.sender.Some? && tx.sender.value != "" && tx.recipient != ""
  }

  // ---------------------------------------------------------------------
  // Balances

  /** What one transaction does to the balance of address a: the amount is
      subtracted when a sent it and added when a received it. */
  function Net(tx: Transaction, a: string): int
  {
    (if tx.recipient == a then tx.amount else 0) - (if tx.sender == Some(a) then tx.amount else 0)
  }

  /** Net effect of a list of transactions on a, in list order. */
  function NetOf(txs: seq<Transaction>, a: string): int
  {
    if txs == [] then 0 else NetOf(txs[..|txs| - 1], a) + Net(txs[|txs| - 1], a)
  }

  /** The balance of a derived from a chain: every transaction of every block,
      in chain order. The pending pool is not part of it. */
  function BalanceOf(chain: seq<LedgerBlock>, a: string): int
  {
    if chain == [] then 0 else BalanceOf(chain[..|chain| - 1], a) + NetOf(chain[|chain| - 1].data, a)
  }

  /** Sealing one more block adds its transactions' net effect. */
  lemma BalanceAppend(chain: seq<LedgerBlock>, b: LedgerBlock, a: string)
    ensures BalanceOf(chain + [b], a) == BalanceOf(chain, a) + NetOf(b.data, a)
  {
  }

  /** addTransaction accepts tx against this chain. */
  predicate Admits(chain: seq<LedgerBlock>, tx: Transaction)
  {
    HasParties(tx) && tx.amount > 0 && BalanceOf(chain, tx.sender.value) >= tx.amount
  }

  /** The reward transaction minePendingTransactions puts in the new pool. */
  function Reward(minerAddress: string, miningReward: int): (tx: Transaction)
    ensures tx.sender.None? && !HasParties(tx)
    ensures tx.recipient == minerAddress && tx.amount == miningReward
  {
    Transaction(None, minerAddress, miningReward)
  }

  /** `createGenesisBlock()`: a block with no transactions and previous hash
      "0", never mined. */
  function CreateGenesisBlock(h: Hasher<seq<Transaction>>, now: int): (g: LedgerBlock)
    ensures g.data == [] && g.previousHash == "0" && g.nonce == 0 && g.timestamp == now
    ensures Consistent(h, g)
  {
    Unmined(h, [], "0", now)
  }

  /** The genesis block as every chain of this ledger starts. */
  predicate IsGenesis(h: Hasher<seq<Transaction>>, g: LedgerBlock)
  {
    g.data == [] && g.previousHash == "0" && g.nonce == 0 && Consistent(h, g)
  }

  class Blockchain {
    var chain: seq<LedgerBlock>
    var pendingTransactions: seq<Transaction>
    const difficulty: nat
    const miningReward: int
    const hasher: Hasher<seq<Transaction>>

    /** The chain is never empty and starts with the genesis block. */
    ghost predicate Valid()
      reads this
    {
      |chain| > 0 && IsGenesis(hasher, chain[0])
    }

    constructor(difficulty: nat, miningReward: int, hasher: Hasher<seq<Transaction>>, now: int)
      ensures Valid()
      ensures chain == [CreateGenesisBlock(hasher, now)] && pendingTransactions == []
      ensures this.difficulty == difficulty && this.miningReward == miningReward && this.hasher == hasher
      ensures ChainValid(hasher, chain)
    {
      this.difficulty := difficulty;
      this.miningReward := miningReward;
      this.hasher := hasher;
      this.pendingTransactions := [];
      this.chain := [CreateGenesisBlock(hasher, now)];
    }

    /** The tip; it always exists because the chain is never empty. */
    function GetLatestBlock(): (b: LedgerBlock)
      reads this
      requires Valid()
      ensures b == chain[|chain| - 1] && b in chain
    {
      chain[|chain| - 1]
    }

    /** Read-only view of the chain. */
    function GetChain(): (c: seq<LedgerBlock>)
      reads this
      requires Valid()
      ensures c == chain && |c| > 0
    {
      chain
    }

    /** The nested loop of getBalanceOfAddress. */
    method GetBalanceOfAddress(address: string) returns (balance: int)
      ensures balance == BalanceOf(chain, address)
    {
      balance := 0;
      var i := 0;
      while i < |chain|
        invariant 0 <= i <= |chain|
        invariant balance == BalanceOf(chain[..i], address)
      {
        var txs := chain[i].data;
        var j := 0;
        while j < |txs|
          invariant 0 <= j <= |txs|
          invariant balance == BalanceOf(chain[..i], address) + NetOf(txs[..j], address)
        {
          var trans := txs[j];
          if trans.sender == Some(address) {
            balance := balance - trans.amount;
          }
          if trans.recipient == address {
            balance := balance + trans.amount;
          }
          assert txs[..j + 1][..j] == txs[..j];
          j := j + 1;
        }
        assert txs[..j] == txs;
        assert chain[..i + 1][..i] == chain[..i];
        i := i + 1;
      }
      assert chain[..i] == chain;
    }

    method IsChainValid() returns (valid: bool)
      ensures valid <==> ChainValid(hasher, chain)
    {
      valid := CheckChain(hasher, chain);
    }

    /** Screens tx in order (parties, amount, sender's sealed balance) and
        appends it to the pool when all three pass. */
    method AddTransaction(tx: Transaction) returns (outcome: Admission)
      requires Valid()
      modifies this`pendingTransactions
      ensures Valid() && chain == old(chain)
      ensures outcome == MissingParty <==> !HasParties(tx)
      ensures outcome == NonPositiveAmount <==> HasParties(tx) && tx.amount <= 0
      ensures outcome == InsufficientBalance <==>
              HasParties(tx) && tx.amount > 0 && BalanceOf(chain, tx.sender.value) < tx.amount
      ensures outcome == Added <==> Admits(chain, tx)
      ensures pendingTransactions ==
              if outcome == Added then old(pendingTransactions) + [tx] else old(pendingTransactions)
    {
      if tx.sender.None? || tx.sender.value == "" || tx.recipient == "" {
        return MissingParty;
      }
      if tx.amount <= 0 {
        return NonPositiveAmount;
      }
      var balance := GetBalanceOfAddress(tx.sender.value);
      if balance < tx.amount {
        return InsufficientBalance;
      }
      pendingTransactions := pendingTransactions + [tx];
      outcome := Added;
    }

    /** Seals the pool into a new block linked to the tip, appends it, and
        replaces the pool by the reward for minerAddress. Does nothing on an
        empty pool. Mining returns only if some nonce seals the block. */
    method MinePendingTransactions(minerAddress: string, now: int) returns (mined: bool)
      requires Valid()
      requires pendingTransactions != [] ==>
               Solvable(hasher, GetLatestBlock().hash, now, pendingTransactions, 0, difficulty)
      modifies this
      ensures Valid()
      ensures mined <==> old(pendingTransactions) != []
      ensures !mined ==> chain == old(chain) && pendingTransactions == old(pendingTransactions)
      ensures mined ==> |chain| == |old(chain)| + 1 && chain[..|old(chain)|] == old(chain)
      ensures mined ==> chain[|chain| - 1].data == old(pendingTransactions)
      ensures mined ==> chain[|chain| - 1].previousHash == old(GetLatestBlock()).hash
      ensures mined ==> chain[|chain| - 1].timestamp == now
      ensures mined ==> Sealed(hasher, chain[|chain| - 1], difficulty)
      ensures mined ==> FirstSolution(hasher, chain[|chain| - 1], difficulty)
      ensures mined ==> pendingTransactions == [Reward(minerAddress, miningReward)]
      ensures mined ==> forall a :: BalanceOf(chain, a) == old(BalanceOf(chain, a)) + NetOf(old(pendingTransactions), a)
      ensures old(ChainValid(hasher, chain)) ==> ChainValid(hasher, chain)
    {
      if pendingTransactions == [] {
        return false;
      }
      var block := new Block(pendingTransactions, GetLatestBlock().hash, now, hasher);
      SolvableStep(hasher, block.previousHash, now, block.data, 0, difficulty);
      block.MineBlock(difficulty);
      var sealed := block.Record();
      ChainValidAppend(hasher, chain, sealed);
      forall a ensures BalanceOf(chain + [sealed], a) == BalanceOf(chain, a) + NetOf(sealed.data, a) {
        BalanceAppend(chain, sealed, a);
      }
      chain := chain + [sealed];
      pendingTransactions := [Reward(minerAddress, miningReward)];
      mined := true;
    }
  }

  // ---------------------------------------------------------------------
  // Properties of the spec functions

  /** A reward transaction (no sender) can never be admitted by
      addTransaction, whatever the chain. */
  lemma RewardNeverAdmitted(chain: seq<LedgerBlock>, tx: Transaction)
    requires tx.sender.None? || tx.recipient == "" || tx.amount <= 0
    ensures !Admits(chain, tx)
  {
  }

  /** A chain whose blocks carry no transactions, such as the genesis-only
      chain, gives every address balance 0. */
  lemma {:induction false} EmptyBlocksBalanceZero(chain: seq<LedgerBlock>, a: string)
    requires forall i :: 0 <= i < |chain| ==> chain[i].data == []
    ensures BalanceOf(chain, a) == 0
  {
    if chain != [] {
      EmptyBlocksBalanceZero(chain[..|chain| - 1], a);
    }
  }

  /** Admission does not reserve funds: against a valid chain where "A"
      holds 50, two pending transfers of 50 from "A" are both admitted. The
      ledger's own operations never reach such a chain (see
      NothingAdmittedAtGenesis); only outside writes to its fields can. */
  lemma PendingPoolCanOverdraw(h: Hasher<seq<Transaction>>)
    ensures var g := CreateGenesisBlock(h, 0);
            var b := Unmined(h, [Reward("A", 50)], g.hash, 1);
            ChainValid(h, [g, b])
            && BalanceOf([g, b], "A") == 50
            && Admits([g, b], Transaction(Some("A"), "B", 50))
            && Admits([g, b], Transaction(Some("A"), "C", 50))
  {
    var g := CreateGenesisBlock(h, 0);
    var b := Unmined(h, [Reward("A", 50)], g.hash, 1);
    assert [g, b][..1] == [g];
    assert [Reward("A", 50)][..0] == [];
    EmptyBlocksBalanceZero([g], "A");
    assert LinkOk(h, [g, b], 1);
  }

  /** Against the chain the constructor builds, every balance is 0, so no
      transaction passes addTransaction: a positive amount always exceeds the
      sender's balance, and a reward has no sender. */
  lemma NothingAdmittedAtGenesis(h: Hasher<seq<Transaction>>, now: int, tx: Transaction)
    ensures !Admits([CreateGenesisBlock(h, now)], tx)
  {
    if HasParties(tx) {
      EmptyBlocksBalanceZero([CreateGenesisBlock(h, now)], tx.sender.value);
    }
  }

  /** The ledger never leaves the state its constructor builds through its
      own operations: from a genesis-only chain and an empty pool,
      addTransaction rejects whatever it is given, so the pool stays empty
      and minePendingTransactions mines nothing. */
  method StaysAtGenesis(bc: Blockchain, tx: Transaction, minerAddress: string, now: int)
      returns (outcome: Admission, mined: bool)
    requires bc.Valid() && |bc.chain| == 1 && bc.pendingTransactions == []
    modifies bc
    ensures outcome != Added && !mined
    ensures bc.chain == old(bc.chain) && bc.pendingTransactions == []
  {
    NothingAdmittedAtGenesis(bc.hasher, bc.chain[0].timestamp, tx);
    assert bc.chain == [CreateGenesisBlock(bc.hasher, bc.chain[0].timestamp)];
    outcome := bc.AddTransaction(tx);
    mined := bc.MinePendingTransactions(minerAddress, now);
  }

  // ---------------------------------------------------------------------
  // Conservation: transfers are zero-sum, only rewards create coins.

  /** Coins created by the reward transactions (no sender) of a list. */
  function MintedOf(txs: seq<Transaction>): int
  {
    if txs == [] then 0
    else MintedOf(txs[..|txs| - 1]) + (if txs[|txs| - 1].sender.None? then txs[|txs| - 1].amount else 0)
  }

  /** Coins created by all reward transactions sealed in a chain. */
  function Minted(chain: seq<LedgerBlock>): int
  {
    if chain == [] then 0 else Minted(chain[..|chain| - 1]) + MintedOf(chain[|chain| - 1].data)
  }

  predicate Distinct(addrs: seq<string>)
  {
    forall i, j :: 0 <= i < j < |addrs| ==> addrs[i] != addrs[j]
  }

  /** Every party of every transaction is listed. */
  predicate Covers(addrs: seq<string>, txs: seq<Transaction>)
  {
    forall t :: t in txs ==> t.recipient in addrs && (t.sender.Some? ==> t.sender.value in addrs)
  }

  function SumNet(addrs: seq<string>, tx: Transaction): int
  {
    if addrs == [] then 0 else Net(tx, addrs[0]) + SumNet(addrs[1..], tx)
  }

  function SumNetOf(addrs: seq<string>, txs: seq<Transaction>): int
  {
    if addrs == [] then 0 else NetOf(txs, addrs[0]) + SumNetOf(addrs[1..], txs)
  }

  function SumBalances(addrs: seq<string>, chain: seq<LedgerBlock>): int
  {
    if addrs == [] then 0 else BalanceOf(chain, addrs[0]) + SumBalances(addrs[1..], chain)
  }

  /** Summed over distinct addresses, one transaction credits its amount once
      (if the recipient is listed) and debits it once (if the sender is). */
  lemma {:induction false} SumNetOne(addrs: seq<string>, tx: Transaction)
    requires Distinct(addrs)
    ensures SumNet(addrs, tx) ==
            (if tx.recipient in addrs then tx.amount else 0)
            - (if tx.sender.Some? && tx.sender.value in addrs then tx.amount else 0)
  {
    if addrs != [] {
      var rest := addrs[1..];
      assert Distinct(rest) by {
        forall i, j | 0 <= i < j < |rest| ensures rest[i] != rest[j] {
          assert rest[i] == addrs[i + 1] && rest[j] == addrs[j + 1];
        }
      }
      assert addrs[0] !in rest by {
        forall k | 0 <= k < |rest| ensures rest[k] != addrs[0] {
          assert rest[k] == addrs[k + 1];
        }
      }
      assert forall x :: x in addrs <==> x == addrs[0] || x in rest by {
        assert addrs == [addrs[0]] + rest;
      }
      SumNetOne(rest, tx);
    }
  }

  lemma {:induction false} SumNetOfSnoc(addrs: seq<string>, txs: seq<Transaction>, tx: Transaction)
    ensures SumNetOf(addrs, txs + [tx]) == SumNetOf(addrs, txs) + SumNet(addrs, tx)
  {
    assert (txs + [tx])[..|txs|] == txs;
    if addrs != [] {
      SumNetOfSnoc(addrs[1..], txs, tx);
    }
  }

  lemma {:induction false} SumBalancesSnoc(addrs: seq<string>, chain: seq<LedgerBlock>, b: LedgerBlock)
    ensures SumBalances(addrs, chain + [b]) == SumBalances(addrs, chain) + SumNetOf(addrs, b.data)
  {
    assert (chain + [b])[..|chain|] == chain;
    if addrs != [] {
      SumBalancesSnoc(addrs[1..], chain, b);
    }
  }

  /** Transfers between listed addresses cancel out: the net effect of a list
      of transactions, summed over all its parties, is what its rewards mint. */
  lemma {:induction false} TransactionsConserve(addrs: seq<string>, txs: seq<Transaction>)
    requires Distinct(addrs) && Covers(addrs, txs)
    ensures SumNetOf(addrs, txs) == MintedOf(txs)
  {
    if txs == [] {
      SumNetOfEmpty(addrs);
    } else {
      var init, last := txs[..|txs| - 1], txs[|txs| - 1];
      assert txs == init + [last];
      assert last in txs;
      assert Covers(addrs, init) by {
        forall t | t in init ensures t in txs { }
      }
      TransactionsConserve(addrs, init);
      SumNetOfSnoc(addrs, init, last);
      SumNetOne(addrs, last);
    }
  }

  lemma {:induction false} SumNetOfEmpty(addrs: seq<string>)
    ensures SumNetOf(addrs, []) == 0
  {
    if addrs != [] {
      SumNetOfEmpty(addrs[1..]);
    }
  }

  lemma {:induction false} SumBalancesEmpty(addrs: seq<string>)
    ensures SumBalances(addrs, []) == 0
  {
    if addrs != [] {
      SumBalancesEmpty(addrs[1..]);
    }
  }

  /** Balance conservation: summed over every address that appears in the
      chain, the derived balances equal the coins minted by rewards. */
  lemma {:induction false} BalancesConserve(addrs: seq<string>, chain: seq<LedgerBlock>)
    requires Distinct(addrs)
    requires forall i :: 0 <= i < |chain| ==> Covers(addrs, chain[i].data)
    ensures SumBalances(addrs, chain) == Minted(chain)
  {
    if chain == [] {
      SumBalancesEmpty(addrs);
    } else {
      var init, last := chain[..|chain| - 1], chain[|chain| - 1];
      assert chain == init + [last];
      TransactionsConserve(addrs, last.data);
      BalancesConserve(addrs, init);
      SumBalancesSnoc(addrs, init, last);
    }
  }
}
