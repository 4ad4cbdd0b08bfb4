# Blockchain ledger and proof of work, in Dafny

A model of `blockchain.py`, a small append-only ledger. A `Blockchain` object
holds an ordered `chain` of blocks and a pool of pending transactions
(`current_transaction`). `createTransaction` queues a transaction and reports
the index of the block it will land in. `createBlock` seals the whole pool into
a new block and appends it. The genesis block records the integer sentinel 1
as its previous hash. A later block records the `previous_hash` its caller
passed, if that is truthy, and otherwise the SHA-256 digest of its
predecessor's JSON form. A proof-of-work puzzle (`validProof`, `proofOfWork`)
asks for the least non-negative candidate such that the SHA-256 digest of the
string `str(last_proof) + str(candidate)` starts with `"0000"`.

Files:

- `decimal.dfy` (module `Decimal`): Python's `str(int)`, with its inverse and
  the round trip between them.
- `proof_of_work.dfy` (module `Pow`): `validProof` and the linear search
  `proofOfWork`, proved to return the least valid proof.
- `ledger.dfy` (module `Ledger`): blocks, transactions and the two operations
  as pure transitions on the ledger's value. The invariants are proved here:
  indexing, append-only, pool cleared with the append, and hash linkage, over
  any run of operations. The two defects of the code as written are modelled
  here too.
- `blockchain.dfy` (module `Chain`): the class `Blockchain`, whose methods
  update `chain` and `currentTransaction` in place. Each method's new state is
  the `Ledger` transition of its old state.

SHA-256 and `json.dumps(..., sort_keys=True)` are foreign calls. They enter as
the two function-valued fields of `Ledger.Crypto` (`serialize`, `sha256`). The
model assumes nothing about them except that they are functions, so they
return equal digests for equal inputs. `time()` is the parameter `now`.

Where the code and its docstrings (blockchain.py:19, 85-86) differ, or the
code is easy to misread, the model follows the code:

- An override `previous_hash` is used only when it is truthy, because of
  Python's `or`. So `None`, `0` and `""` fall back to the tail's digest.
- The genesis block's `previous_hash` is the integer `1`, not a string. It is
  `Sentinel(1)` of `Ledger.PrevHash`.
- `validProof` compares `h[:4]` with `"0000"`, so a digest shorter than four
  characters is simply rejected.

## Model

| member | source | states |
|---|---|---|
| `Decimal.NatToDecimal` | blockchain.py:91 | `str(n)` of a natural number is a non-empty run of digits with no leading zero, except for "0" itself |
| `Decimal.IntToDecimal` | blockchain.py:91 | `str(n)` starts with '-' exactly when n is negative. A non-negative numeral is all digits with no leading zero, except "0" itself. A negative one is '-' followed by digits that do not start with '0'. With `IntRoundTrip` this fixes the numeral uniquely |
| `Decimal.NatRoundTrip` | blockchain.py:91 | parsing the numeral of a natural number gives back the number |
| `Decimal.IntRoundTrip` | blockchain.py:91 | `int(str(n)) == n` for every integer, negative ones included |
| `Decimal.IntToDecimalInjective` | blockchain.py:91 | distinct integers have distinct decimal numerals |
| `Pow.Prefix` | blockchain.py:93 | Python's `h[:n]` is a prefix of `h`, of length n, or all of `h` when `h` is shorter |
| `Pow.GuessReadsBack` | blockchain.py:91 | the f-string `f'{last_proof}{proof}'`, split after the first numeral, reads back as exactly the two proofs |
| `Pow.ValidProof` | blockchain.py:83-93 | `validProof(a, b)` holds exactly when the digest of `str(a) + str(b)` has at least four characters and the first four are '0' |
| `Pow.GuessInjectiveInCandidate` | blockchain.py:91 | for a fixed previous proof, distinct candidates hash distinct guess strings |
| `Pow.GuessAmbiguousAcrossPairs` | blockchain.py:91-93 | with no separator, (1, 23) and (12, 3) both hash "123", so `validProof` accepts one exactly when it accepts the other |
| `Pow.LeastValidProofUnique` | blockchain.py:76-80 | the least valid proof is unique, so the search result is determined by the previous proof |
| `Pow.ProofOfWork` | blockchain.py:67-80 | the search returns a non-negative proof that `validProof` accepts, and no smaller non-negative candidate is accepted |
| `Ledger.GenerateHash` | blockchain.py:52-61 | the digest is SHA-256 of the block's canonical JSON form, so it depends on the block only through that form: blocks that serialize alike hash alike |
| `Ledger.Truthy` | blockchain.py:28 | for Python's `or`, the falsy values of `previous_hash` are exactly `None`, `0` and `""` |
| `Ledger.LastBlock` | blockchain.py:63-65 | the `lastBlock` property is the chain's tail, and raises `EmptyChain` exactly when the chain is empty |
| `Ledger.ResolvePrevHash` | blockchain.py:28 | a truthy override is used as is; otherwise the result is the digest of the current tail; only a falsy override on an empty chain fails |
| `Ledger.Seal` | blockchain.py:14-33 | `createBlock` appends exactly one block and keeps all earlier blocks. The new block has index old length + 1, the given proof and timestamp, and exactly the old pool in order. Its `previous_hash` is the truthy override or the digest of the old tail. The pool is then empty |
| `Ledger.Enqueue` | blockchain.py:44-48 | `createTransaction` appends exactly one transaction at the end of the pool and leaves the chain alone |
| `Ledger.NextIndex` | blockchain.py:49 | the reported index exists exactly when the chain is non-empty |
| `Ledger.NextIndexIsLengthPlusOne` | blockchain.py:23-49 | on a well-indexed chain the index `createTransaction` reports is `len(chain) + 1` |
| `Ledger.Construct` | blockchain.py:6-12 | construction gives one block with index 1, proof 1, empty transactions, previous hash `Sentinel(1)`, and an empty pool |
| `Ledger.ConstructEstablishesInvariant` | blockchain.py:6-12 | the constructed ledger is non-empty, well indexed and linked, with an empty pool |
| `Ledger.SealPreservesInvariant` | blockchain.py:23-32 | sealing on a constructed ledger always succeeds and keeps "the block at position i has index i + 1" |
| `Ledger.SealLinkedIff` | blockchain.py:28-32 | sealing keeps a linked chain linked if and only if the override is falsy or equals the digest of the tail |
| `Ledger.RunPreservesInvariant` | blockchain.py:14-49 | any sequence of `createTransaction` and `createBlock` on a constructed ledger succeeds, keeps it non-empty and well indexed, and only appends: the old chain is a prefix of the new one |
| `Ledger.RunKeepsEarlierHashes` | blockchain.py:52-61 | the digest of a block already sealed is the same after any later sequence of operations |
| `Ledger.RunPreservesLinkage` | blockchain.py:28 | if no `createBlock` in a run passes a truthy override, every block after the first records the digest of its predecessor |
| `Ledger.EndToEnd` | blockchain.py:6-49 | after construction, queuing a -> b 5 reports block 2; sealing then gives two blocks, the second holding exactly that transaction and linked to the genesis block |
| `Ledger.ConstructAsWrittenFails` | blockchain.py:12 | as written, construction always fails with a missing method, while the corrected constructor yields the genesis ledger |
| `Ledger.FallbackAsWrittenFails` | blockchain.py:28 | as written, `createBlock` with no override fails on every non-empty chain, while the corrected rule gives the tail's digest |
| `Chain.Blockchain.constructor` | blockchain.py:6-12 | the new object holds exactly the genesis block and an empty pool, and satisfies the ledger invariant |
| `Chain.Blockchain.CreateBlock` | blockchain.py:14-33 | the object's new state is `Ledger.Seal` of its old state. The returned block is the one appended, and it keeps the invariant |
| `Chain.Blockchain.CreateTransaction` | blockchain.py:35-49 | the object's new state is `Ledger.Enqueue` of its old state. The chain is untouched, and the result is the tail's index + 1, which is `len(chain) + 1` on a well-indexed chain |

## Findings

| source | as written | input that shows it | evidently intended | confidence | as-written member | corrected member |
|---|---|---|---|---|---|---|
| blockchain.py:12 | the constructor calls `self.new_block(previous_hash=1, proof=1)`, which the class does not define (AttributeError) | `Blockchain()` | `self.createBlock(previous_hash=1, proof=1)` | high; not executed | `Ledger.ConstructAsWritten`, `Ledger.ConstructAsWrittenFails` | `Ledger.Construct`, `Chain.Blockchain.constructor` |
| blockchain.py:28 | the fallback calls `self.lastBlock()`, but `lastBlock` is a property, so the dict it yields is called (TypeError) | `createBlock(proof)` with no `previous_hash` on the constructed ledger | `self.generateHash(self.lastBlock)` | high; not executed | `Ledger.ResolvePrevHashAsWritten`, `Ledger.FallbackAsWrittenFails` | `Ledger.ResolvePrevHash`, `Ledger.SealLinkedIff` |

## Left out

- SHA-256 (`hashlib`) and JSON encoding (`json.dumps` with `sort_keys`) are foreign calls. They are the parameters `Crypto.sha256` and `Crypto.serialize`. Digest length, hex alphabet and key ordering are not modelled, and `.encode()` of an ASCII string is taken as the identity.
- Decimal.IntToDecimal: has no length limit. Since Python 3.11, CPython refuses to convert an integer of more than 4300 digits to a string (ValueError). That limit would make `validProof` and `json.dumps` of a block raise for such a proof.
- `time()` is wall-clock input; it is the parameter `now` of `CreateBlock` and of the constructor.
- Python's dynamic typing is not modelled: `sender` and `recipient` are strings, `amount` and `proof` are integers, and `previous_hash` is `None`, an integer or a string.
- Aliasing is not modelled. The block stores the pool list object itself, not a copy, and `current_transaction` is then rebound to a fresh list. `createBlock` returns the very dict it appends, and `lastBlock` returns the stored tail dict. So a caller can change a stored block, or the transaction list inside it, after sealing. The model hands out immutable block values. Its append-only and hash-stability results therefore assume that no caller changes a block it received.
- Pow.ProofOfWork: requires that some non-negative valid candidate exists, because the source loops forever otherwise. Whether one exists depends on SHA-256, which is not modelled.
- `createBlock` does not check that `proof` is valid for the previous block's proof, and neither does the model. So no property says that every block's proof is valid.
- Ledger.Step: a `createTransaction` on an empty chain is an error that discards the state. In the source the transaction is appended before `lastBlock` raises. This cannot happen on a constructed ledger.
- The HTTP routes, node identity, mining reward, concurrency and chain validation are not part of the class. `Chain.MineOne` shows only how a miner uses the class: it searches the proof, queues a transaction and seals a block.
