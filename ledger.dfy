/** The values of blockchain.py's ledger and its state transitions as pure
    functions: blocks, transactions, the `previous_hash` rule of
    `createBlock`, the index `createTransaction` reports, and runs of both
    operations. The class in blockchain.dfy updates its fields as these
    functions say; the invariants of the ledger are proved here. */
module Ledger {

  datatype Option<T> = None | Some(value: T)

  /** The ways the source raises. `EmptyChain` is `self.chain[-1]` on an empty
      list (IndexError); the other two are raised only by the code as written
      (see the Findings of the README): `MissingMethod` is the AttributeError
      of `self.new_block`, `NotCallable` the TypeError of calling the dict
      that the `lastBlock` property returns. */
  datatype Error = EmptyChain | MissingMethod | NotCallable

  datatype Result<T> = Ok(value: T) | Err(error: Error)

  /** `{'sender': ..., 'recipient': ..., 'amount': ...}` */
  datatype Transaction = Transaction(sender: string, recipient: string, amount: int)

  /** A block's `previous_hash`: the genesis block carries the integer 1, every
      later block a hex digest string. */
  datatype PrevHash = Sentinel(n: int) | Digest(hex: string)

  /** The dict built by `createBlock`. */
  datatype Block = Block(
    index: int,
    timestamp: real,
    transactions: seq<Transaction>,
    proof: int,
    previousHash: PrevHash)

  /** The two foreign calls behind `generateHash`: `json.dumps(block,
      sort_keys=True).encode()` and `hashlib.sha256(...).hexdigest()`. */
  datatype Crypto = Crypto(serialize: Block -> string, sha256: string -> string)

  /** `generateHash(block)`: the digest depends on the block only through its
      canonical serialization, so blocks that serialize alike hash alike. */
  function GenerateHash(crypto: Crypto, block: Block): (h: string)
    ensures forall other: Block :: crypto.serialize(other) == crypto.serialize(block) ==>
      crypto.sha256(crypto.serialize(other)) == h
  {
    crypto.sha256(crypto.serialize(block))
  }

  /** Python truthiness of the `previous_hash` argument: the falsy values are
      exactly None, 0 and "". */
  predicate Truthy(previousHash: Option<PrevHash>)
    ensures Truthy(previousHash) <==>
      previousHash != None && previousHash != Some(Sentinel(0)) && previousHash != Some(Digest(""))
  {
    match previousHash
    case None => false
    case Some(Sentinel(n)) => n != 0
    case Some(Digest(hex)) => hex != ""
  }

  /** The `lastBlock` property: `self.chain[-1]`. */
  function LastBlock(chain: seq<Block>): (r: Result<Block>)
    ensures r.Ok? <==> |chain| > 0
    ensures r.Ok? ==> r.value == chain[|chain| - 1] && r.value in chain
    ensures r.Err? ==> r.error == EmptyChain
  {
    if |chain| == 0 then Err(EmptyChain) else Ok(chain[|chain| - 1])
  }

  /** `previous_hash or self.generateHash(self.lastBlock)`: a truthy argument
      wins, otherwise the digest of the current tail. Python's `or` does not
      evaluate the right side when the left is truthy, so an empty chain fails
      only when the argument is falsy. */
  function ResolvePrevHash(crypto: Crypto, chain: seq<Block>, previousHash: Option<PrevHash>): (r: Result<PrevHash>)
    ensures r.Ok? <==> Truthy(previousHash) || |chain| > 0
    ensures Truthy(previousHash) ==> r == Ok(previousHash.value)
    ensures !Truthy(previousHash) && |chain| > 0 ==>
      r == Ok(Digest(GenerateHash(crypto, chain[|chain| - 1])))
  {
    if Truthy(previousHash) then Ok(previousHash.value)
    else match LastBlock(chain)
      case Ok(tail) => Ok(Digest(GenerateHash(crypto, tail)))
      case Err(e) => Err(e)
  }

  /** The fields of a `Blockchain`: `chain` and `current_transaction`. */
  datatype State = State(chain: seq<Block>, pool: seq<Transaction>)

  /** `createBlock(proof, previous_hash)` at wall-clock time `now`: seal the
      whole pool into a block indexed one past the chain's length, append it,
      empty the pool. */
  function Seal(crypto: Crypto, s: State, proof: int, previousHash: Option<PrevHash>, now: real): (r: Result<State>)
    ensures r.Ok? <==> Truthy(previousHash) || |s.chain| > 0
    ensures r.Err? ==> r.error == EmptyChain
    ensures r.Ok? ==>
      var n := |s.chain|;
      |r.value.chain| == n + 1 && r.value.chain[..n] == s.chain && r.value.pool == [] &&
      r.value.chain[n].index == n + 1 &&
      r.value.chain[n].timestamp == now &&
      r.value.chain[n].transactions == s.pool &&
      r.value.chain[n].proof == proof &&
      r.value.chain[n].previousHash ==
        (if Truthy(previousHash) then previousHash.value else Digest(GenerateHash(crypto, s.chain[n - 1])))
  {
    match ResolvePrevHash(crypto, s.chain, previousHash)
    case Err(e) => Err(e)
    case Ok(prev) =>
      var block := Block(|s.chain| + 1, now, s.pool, proof, prev);
      Ok(State(s.chain + [block], []))
  }

  /** The pool after `createTransaction(sender, recipient, amount)`. */
  function Enqueue(s: State, tx: Transaction): (r: State)
    ensures r.chain == s.chain && |r.pool| == |s.pool| + 1
    ensures r.pool[..|s.pool|] == s.pool && r.pool[|s.pool|] == tx
  {
    State(s.chain, s.pool + [tx])
  }

  /** The value `createTransaction` returns: `self.lastBlock['index'] + 1`. */
  function NextIndex(chain: seq<Block>): (r: Result<int>)
    ensures r.Ok? <==> |chain| > 0
  {
    match LastBlock(chain)
    case Ok(tail) => Ok(tail.index + 1)
    case Err(e) => Err(e)
  }

  /** `Blockchain()`: empty chain and pool, then the genesis block sealed with
      proof 1 and previous hash 1. The source calls `self.new_block`, which
      does not exist; this is the evidently intended call to `createBlock`. */
  function Construct(crypto: Crypto, now: real): (r: Result<State>)
    ensures r == Ok(State([Block(1, now, [], 1, Sentinel(1))], []))
  {
    Seal(crypto, State([], []), 1, Some(Sentinel(1)), now)
  }

  // ---------------------------------------------------------------------
  // Invariants

  /** The block at position i has index i + 1. */
  predicate WellIndexed(chain: seq<Block>) {
    forall i :: 0 <= i < |chain| ==> chain[i].index == i + 1
  }

  /** What holds of every ledger once constructed: a non-empty, well-indexed chain. */
  predicate Invariant(s: State) {
    |s.chain| > 0 && WellIndexed(s.chain)
  }

  /** Every block after the first records the digest of its predecessor. */
  predicate Linked(crypto: Crypto, chain: seq<Block>) {
    forall i :: 0 < i < |chain| ==> chain[i].previousHash == Digest(GenerateHash(crypto, chain[i - 1]))
  }

  lemma ConstructEstablishesInvariant(crypto: Crypto, now: real)
    ensures Construct(crypto, now).Ok?
    ensures Invariant(Construct(crypto, now).value)
    ensures Linked(crypto, Construct(crypto, now).value.chain)
    ensures Construct(crypto, now).value.pool == []
  {
  }

  /** On a well-indexed ledger `createTransaction` reports `len(chain) + 1`. */
  lemma NextIndexIsLengthPlusOne(chain: seq<Block>)
    requires |chain| > 0 && WellIndexed(chain)
    ensures NextIndex(chain) == Ok(|chain| + 1)
  {
  }

  lemma SealPreservesInvariant(crypto: Crypto, s: State, proof: int, previousHash: Option<PrevHash>, now: real)
    requires Invariant(s)
    ensures Seal(crypto, s, proof, previousHash, now).Ok?
    ensures Invariant(Seal(crypto, s, proof, previousHash, now).value)
  {
    var t := Seal(crypto, s, proof, previousHash, now).value;
    forall i | 0 <= i < |t.chain| ensures t.chain[i].index == i + 1 {
      if i < |s.chain| {
        assert t.chain[i] == t.chain[..|s.chain|][i];
      }
    }
  }

  /** Sealing keeps a linked chain linked exactly when the override is falsy
      or is the digest of the tail the fallback would have used. */
  lemma SealLinkedIff(crypto: Crypto, s: State, proof: int, previousHash: Option<PrevHash>, now: real)
    requires |s.chain| > 0 && Linked(crypto, s.chain)
    ensures Seal(crypto, s, proof, previousHash, now).Ok?
    ensures Linked(crypto, Seal(crypto, s, proof, previousHash, now).value.chain) <==>
      (!Truthy(previousHash) || previousHash.value == Digest(GenerateHash(crypto, s.chain[|s.chain| - 1])))
  {
    var t := Seal(crypto, s, proof, previousHash, now).value;
    var n := |s.chain|;
    if !Truthy(previousHash) || previousHash.value == Digest(GenerateHash(crypto, s.chain[n - 1])) {
      forall i | 0 < i < |t.chain| ensures t.chain[i].previousHash == Digest(GenerateHash(crypto, t.chain[i - 1])) {
        assert t.chain[i - 1] == t.chain[..n][i - 1];
        if i < n {
          assert t.chain[i] == t.chain[..n][i];
        }
      }
    } else {
      assert t.chain[n - 1] == t.chain[..n][n - 1];
      assert t.chain[n].previousHash != Digest(GenerateHash(crypto, t.chain[n - 1]));
    }
  }

  // ---------------------------------------------------------------------
  // Runs of operations

  /** One call on a constructed ledger: `createTransaction` or `createBlock`. */
  datatype Op =
    | CreateTransaction(tx: Transaction)
    | CreateBlock(proof: int, previousHash: Option<PrevHash>, now: real)

  function Step(crypto: Crypto, s: State, op: Op): Result<State> {
    match op
    case CreateTransaction(tx) =>
      // `self.lastBlock` raises on an empty chain (after the append)
      if |s.chain| == 0 then Err(EmptyChain) else Ok(Enqueue(s, tx))
    case CreateBlock(proof, previousHash, now) => Seal(crypto, s, proof, previousHash, now)
  }

  function Run(crypto: Crypto, s: State, ops: seq<Op>): Result<State>
    decreases |ops|
  {
    if ops == [] then Ok(s)
    else match Step(crypto, s, ops[0])
      case Ok(t) => Run(crypto, t, ops[1..])
      case Err(e) => Err(e)
  }

  /** No `createBlock` in the run passes a truthy `previous_hash`. */
  predicate NoOverride(ops: seq<Op>) {
    forall k :: 0 <= k < |ops| ==> ops[k].CreateBlock? ==> !Truthy(ops[k].previousHash)
  }

  /** Every run from a constructed ledger succeeds, keeps the indexing
      invariant, and only appends: the old chain is a prefix of the new one. */
  lemma {:induction false} RunPreservesInvariant(crypto: Crypto, s: State, ops: seq<Op>)
    requires Invariant(s)
    ensures Run(crypto, s, ops).Ok?
    ensures Invariant(Run(crypto, s, ops).value)
    ensures s.chain <= Run(crypto, s, ops).value.chain
    decreases |ops|
  {
    if ops != [] {
      var t := Step(crypto, s, ops[0]);
      if ops[0].CreateBlock? {
        SealPreservesInvariant(crypto, s, ops[0].proof, ops[0].previousHash, ops[0].now);
      }
      RunPreservesInvariant(crypto, t.value, ops[1..]);
    }
  }

  /** `generateHash` is a function of the block's value and blocks are never
      rewritten, so the digest of every block already sealed is the same after
      any later run: a digest once recorded stays valid. */
  lemma {:induction false} RunKeepsEarlierHashes(crypto: Crypto, s: State, ops: seq<Op>, i: nat)
    requires Invariant(s) && i < |s.chain|
    ensures Run(crypto, s, ops).Ok? && i < |Run(crypto, s, ops).value.chain|
    ensures GenerateHash(crypto, Run(crypto, s, ops).value.chain[i]) == GenerateHash(crypto, s.chain[i])
  {
    RunPreservesInvariant(crypto, s, ops);
  }

  /** Without overrides, hash linkage holds after every run. */
  lemma {:induction false} RunPreservesLinkage(crypto: Crypto, s: State, ops: seq<Op>)
    requires Invariant(s) && Linked(crypto, s.chain) && NoOverride(ops)
    ensures Run(crypto, s, ops).Ok?
    ensures Linked(crypto, Run(crypto, s, ops).value.chain)
    decreases |ops|
  {
    RunPreservesInvariant(crypto, s, ops);
    if ops != [] {
      var t := Step(crypto, s, ops[0]);
      if ops[0].CreateBlock? {
        SealPreservesInvariant(crypto, s, ops[0].proof, ops[0].previousHash, ops[0].now);
        SealLinkedIff(crypto, s, ops[0].proof, ops[0].previousHash, ops[0].now);
      }
      assert NoOverride(ops[1..]) by {
        forall k | 0 <= k < |ops[1..]| ensures ops[1..][k].CreateBlock? ==> !Truthy(ops[1..][k].previousHash) {
          assert ops[1..][k] == ops[k + 1];
        }
      }
      RunPreservesLinkage(crypto, t.value, ops[1..]);
    }
  }

  /** Construct, queue a -> b 5 (reported for block 2), seal without override. */
  lemma EndToEnd(crypto: Crypto, t0: real, proof: int, t1: real)
    ensures
      var s0 := Construct(crypto, t0).value;
      var tx := Transaction("a", "b", 5);
      NextIndex(Enqueue(s0, tx).chain) == Ok(2) &&
      var s2 := Seal(crypto, Enqueue(s0, tx), proof, None, t1);
      s2.Ok? && |s2.value.chain| == 2 && s2.value.pool == [] &&
      s2.value.chain[1].transactions == [tx] &&
      s2.value.chain[1].previousHash == Digest(GenerateHash(crypto, s2.value.chain[0]))
  {
  }

  // ---------------------------------------------------------------------
  // The code as written

  /** `Blockchain()` as written: `self.new_block(...)` raises AttributeError. */
  function ConstructAsWritten(crypto: Crypto, now: real): Result<State> {
    Err(MissingMethod)
  }

  /** `previous_hash or self.generateHash(self.lastBlock())` as written: the
      property yields the tail dict (or raises IndexError on an empty chain)
      and calling that dict raises TypeError. */
  function ResolvePrevHashAsWritten(crypto: Crypto, chain: seq<Block>, previousHash: Option<PrevHash>): Result<PrevHash> {
    if Truthy(previousHash) then Ok(previousHash.value)
    else match LastBlock(chain)
      case Ok(tail) => Err(NotCallable)
      case Err(e) => Err(e)
  }

  /** No ledger can be constructed as written; the corrected constructor
      always yields the genesis ledger. */
  lemma ConstructAsWrittenFails(crypto: Crypto, now: real)
    ensures ConstructAsWritten(crypto, now).Err?
    ensures Construct(crypto, now).Ok? && Invariant(Construct(crypto, now).value)
  {
  }

  /** On any non-empty chain, `createBlock(proof)` without an override fails
      as written, and the corrected rule links to the tail. */
  lemma FallbackAsWrittenFails(crypto: Crypto, chain: seq<Block>)
    requires |chain| > 0
    ensures ResolvePrevHashAsWritten(crypto, chain, None) == Err(NotCallable)
    ensures ResolvePrevHash(crypto, chain, None) == Ok(Digest(GenerateHash(crypto, chain[|chain| - 1])))
  {
  }
}
