/** The `Blockchain` class of blockchain.py: an object whose `chain` and
    `current_transaction` fields its methods update in place. Each method
    states its new state as the matching transition of the Ledger module, so
    the invariants proved there carry over to every sequence of calls. */
module Chain {
  import opened Ledger
  import Pow

  class Blockchain {
    /** The hashing collaborators `generateHash` calls (fixed for the object's life). */
    const crypto: Crypto
    var chain: seq<Block>
    var currentTransaction: seq<Transaction>

    /** The object's fields as a Ledger value. */
    function Value(): State
      reads this
    {
      State(chain, currentTransaction)
    }

    /** Holds from the end of construction on. */
    ghost predicate Valid()
      reads this
    {
      Invariant(Value())
    }

    /** `Blockchain()`. The source seals the genesis block with
        `self.new_block(previous_hash=1, proof=1)`, a method the class does
        not have; the evidently intended `createBlock` is called instead. The
        wall-clock time of the genesis block is the parameter `now`. */
    constructor (crypto: Crypto, now: real)
      ensures Valid() && this.crypto == crypto
      ensures Construct(crypto, now) == Ok(Value())
      ensures chain == [Block(1, now, [], 1, Sentinel(1))] && currentTransaction == []
    {
      this.crypto := crypto;
      chain := [];
      currentTransaction := [];
      new;
      var genesis := CreateBlock(1, Some(Sentinel(1)), now);
    }

    /** `createBlock(proof, previous_hash)`, with `time()` passed in as `now`.
        The source's fallback calls `self.lastBlock()`, which calls the dict
        the property returns; the evidently intended `self.lastBlock` is read
        instead. The fallback raises on an empty chain, hence the requires. */
    method CreateBlock(proof: int, previousHash: Option<PrevHash>, now: real) returns (block: Block)
      requires |chain| > 0 || Truthy(previousHash)
      modifies this
      ensures Seal(crypto, old(Value()), proof, previousHash, now) == Ok(Value())
      ensures chain == old(chain) + [block] && currentTransaction == []
      ensures block.index == |old(chain)| + 1 && block.timestamp == now && block.proof == proof
      ensures block.transactions == old(currentTransaction)
      ensures block.previousHash ==
        if Truthy(previousHash) then previousHash.value
        else Digest(GenerateHash(crypto, old(chain)[|old(chain)| - 1]))
      ensures WellIndexed(old(chain)) ==> Valid()
    {
      var prev: PrevHash;
      if Truthy(previousHash) {
        prev := previousHash.value;
      } else {
        var tail := LastBlock(chain).value;
        prev := Digest(GenerateHash(crypto, tail));
      }
      block := Block(|chain| + 1, now, currentTransaction, proof, prev);
      currentTransaction := [];
      chain := chain + [block];
      assert chain[..|old(chain)|] == old(chain);
    }

    /** `createTransaction(sender, recipient, amount)`: queue the transaction
        and report the block it will land in. The source reads
        `self.lastBlock`, which raises on an empty chain, hence the requires. */
    method CreateTransaction(sender: string, recipient: string, amount: int) returns (index: int)
      requires |chain| > 0
      modifies this`currentTransaction
      ensures Value() == Enqueue(old(Value()), Transaction(sender, recipient, amount))
      ensures NextIndex(chain) == Ok(index)
      ensures index == chain[|chain| - 1].index + 1
      ensures WellIndexed(chain) ==> index == |chain| + 1
    {
      currentTransaction := currentTransaction + [Transaction(sender, recipient, amount)];
      index := LastBlock(chain).value.index + 1;
    }
  }

  /** A client of the class: construct a ledger, queue a -> b 5, search the
      proof for the genesis proof and seal it with the tail's digest, as a
      miner does. */
  method MineOne(crypto: Crypto, t0: real, t1: real) returns (index: int, block: Block)
    requires exists w: int :: w >= 0 && Pow.ValidProof(crypto.sha256, 1, w)
    ensures index == 2 && block.index == 2
    ensures block.transactions == [Transaction("a", "b", 5)]
    ensures block.previousHash == Digest(GenerateHash(crypto, Block(1, t0, [], 1, Sentinel(1))))
    ensures Pow.IsLeastValidProof(crypto.sha256, 1, block.proof)
  {
    var ledger := new Blockchain(crypto, t0);
    index := ledger.CreateTransaction("a", "b", 5);
    var lastProof := LastBlock(ledger.chain).value.proof;
    var proof := Pow.ProofOfWork(crypto.sha256, lastProof);
    var lastHash := GenerateHash(crypto, LastBlock(ledger.chain).value);
    block := ledger.CreateBlock(proof, Some(Digest(lastHash)), t1);
  }
}
