# Gotham City: a verified model of a two-party ECDSA wallet

Gotham City lets a client and a server sign ECDSA together, neither ever holding the whole private
key, and puts a Bitcoin and an Ethereum wallet on top. This project models both halves in Dafny and
proves the results that tie them together: whatever the wallet has done, a payment that goes out
spends each output with a signature that verifies under the key of the address that locks it, and
money is neither created nor lost.

## How it is built

- `Common.dfy`: the optional value and the machine integer limits.
- `NumberTheory.dfy`: congruences, Euclid's lemma, the binomial theorem, Fermat's little theorem and
  inverses modulo a prime, from the definition of primality.
- `Paillier.dfy`: textbook Paillier, (1+N)^m r^N mod N^2; both homomorphisms and the correctness of
  decryption follow from the factors being distinct primes with gcd(N, (p-1)(q-1)) = 1.
- `Ecdsa.dfy`: verification and recovery as in SEC 1 version 2, sections 4.1.4 and 4.1.6. The group
  has any odd prime order q and a point is its discrete logarithm. The x coordinate, the parity of y
  and HMAC are uninterpreted functions; the only facts used are that a point and its negation share x
  and differ in parity, and that x and parity determine a point.
- `MasterKeys.dfy`: matching server and client keys and derivation along paths. `TwoPartySigning.dfy`:
  the signing exchange over real Paillier ciphertexts. `ShareRotation.dfy`: rotation of the shares, and
  every interleaving of derivations and rotations.
- `BigEndian.dfy`: byte encodings of signatures. `Selection.dfy`: greedy coin selection.
  `Ledger.dfy` and `Chain.dfy`: what an Electrum server reports, and when a node accepts a transaction.
- `WalletSpec.dfy`: the meaning of the Bitcoin wallet's operations and the theorems about them.
  `BitcoinWallet.dfy`: the wallet as an object with its loops, proved against it. `Rotation.dfy`:
  rotation of a wallet. `WalletRuns.dfy`: whole runs and the end-to-end theorem. `Accounting.dfy`: what
  a run does to balance, positions and shares.
- `PublicGotham.dfy`: the flat key-value store. `Sessions.dfy`: interleaved key generation and signing
  sessions on it.
- `Lifecycle.dfy`: from a key generation session, interleaved with any others, to any later payment
  of the wallet made of its keys.
- `Escrow.dfy`: segmented backup, its decryption by bounded search, recovery of the whole key.
- `EthereumWallet.dfy`: hash and transaction signing, address recovery and EIP-155.

## What the code turned out to do

- Send succeeds exactly under the conditions of `WalletSpec.SendExact`. Two of them are surprising.
  The wallet concatenates minimal-length encodings of r and s, so a signature with a number below
  2^248 is not 64 bytes long and the wallet panics (`BigEndian.ConcatenationIff`, `WalletSpec.InputWitnessExact`). The selection target
  counts whole bitcoins only, so a fractional amount can fail although the funds suffice
  (`Selection.FractionFallsShort`). For every target and amount, the selection covers the amount if and
  only if the spendable outputs add up to it and, taken smallest first, no running total lies strictly
  between target and amount (`Selection.CoversIff`); when the two agree sufficient funds are enough
  (`Selection.SelectionCovers`).
- Position 0 is scanned for funds but never stored, so an output there makes send panic; the run
  theorems therefore let outsiders pay only issued addresses.
- The position is a u32: at the limit it wraps to 0 and the map is no longer that of positions 1 to
  `last` (`WalletSpec.AdvanceConsistent`).
- The flat store behaves like separate tables exactly on slots with different composed keys
  (`PublicGotham.RefinementIff`). Ids without underscores guarantee that for any table names
  (`PublicGotham.IdifyInjective`); in one table two sessions collide exactly when their key prefixes
  are equal, in some pair of tables exactly when one prefix is a prefix of the other.
- Recovery of a public key from an Ethereum signature succeeds exactly when the x coordinate of the
  ephemeral point is below the group order; EIP-155 decoding exactly when the u64 sum does not overflow;
  and a signed transaction names its chain and its sender exactly when both hold
  (`EthereumWallet.TransactionRecovers`).
- The white paper writes the backed-up share as the plain sum of its segments; the segments are digits
  and it is their sum weighted by powers of the base that is the share (`Escrow.CombinedIsElGamal`).

Integer arithmetic that can overflow is modelled as it behaves without overflow checks, that is wrapping;
only the countdown of the coin selection is required not to overflow, which `Selection.NoOverflow` shows of
every non-negative i64 target.
`rotate.rs` is in the tree but not in the compiled module list (gotham-client/src/ecdsa/mod.rs:9-12);
it is modelled as the protocol it and the white paper describe.

## Model

| member | source | states |
|---|---|---|
| NumberTheory.InverseCorrect | white-paper/white-paper.tex:112-117 | every nonzero residue has the inverse the signing formulas divide by |
| Paillier.DecryptCorrect | white-paper/white-paper.tex:89-89 | decrypting an encryption returns the plaintext modulo N, for every key of two suitable primes |
| Paillier.AddHomomorphic | white-paper/white-paper.tex:115-115 | the product of two ciphertexts encrypts the sum of the plaintexts |
| Paillier.MulHomomorphic | white-paper/white-paper.tex:115-115 | a power of a ciphertext encrypts the multiple of the plaintext |
| Paillier.AddRandomness | white-paper/white-paper.tex:115-115 | the product of two ciphertexts also multiplies their randomness |
| Ecdsa.Primitives.VerifyIff | integration-tests/tests/ecdsa.rs:139-149 | verification accepts exactly the pairs in range for which some ephemeral point satisfies the signing equation |
| Ecdsa.Primitives.NegatedVerifies | integration-tests/tests/ecdsa.rs:139-149 | replacing s by q - s never changes whether a signature verifies |
| Ecdsa.Primitives.RecoverIff | demo-wallet/src/ethereum/mod.rs:125-132 | recovery with the parity of R yields the signing key if and only if the x coordinate of R is below q |
| Ecdsa.Primitives.RecoverExact | demo-wallet/src/ethereum/mod.rs:125-132 | recovery answers exactly the key for which the point with the given x coordinate and parity satisfies the signing equation |
| Ecdsa.Primitives.NegatedRecoverIff | demo-wallet/src/ethereum/mod.rs:125-132 | the same for the signature with s negated and the recovery id flipped |
| MasterKeys.ServerShareDecrypts | white-paper/white-paper.tex:89-91 | the ciphertext the client holds decrypts to the server's share itself |
| MasterKeys.DerivationMatches | white-paper/white-paper.tex:121-142 | both parties derive the same public key, public shares and chain code along every path, Q' = x1 x2' G, server share unchanged |
| MasterKeys.DerivationStep | white-paper/white-paper.tex:131-139 | one step on both sides: the left half of HMAC(cc, Q, i) scales Q, Q2 and x2, the right half scales cc, everything else stays |
| MasterKeys.DerivationScales | white-paper/white-paper.tex:128-139 | deriving step by step equals scaling once by the product of the left HMAC halves along the path, and the chain code by the product of the right ones |
| MasterKeys.ServerDerivationScales | white-paper/white-paper.tex:128-139 | the same for the server, whose share and Paillier key stay as they were |
| MasterKeys.DerivationComposes | gotham-client/src/ecdsa/types.rs:11-19 | deriving along two paths in turn is deriving along their concatenation; the session id is kept |
| TwoPartySigning.DecryptedPlaintext | gotham-client/src/ecdsa/sign.rs:46-51 | no wraparound: the server decrypts the very integer the client combined, for every path, mask and nonce |
| TwoPartySigning.MessageBlinded | white-paper/white-paper.tex:115-115 | the ciphertext sent carries the client's own randomness on top of that of the encrypted share |
| TwoPartySigning.SignRefinesEcdsa | gotham-client/src/ecdsa/sign.rs:28-66 | the two-party exchange equals single-party ECDSA with key x1 x2 and ephemeral key k1 k2, including refusals |
| TwoPartySigning.EcdsaVerifies | white-paper/white-paper.tex:99-107 | a textbook signature satisfies the signing equation and verifies exactly when r and s are nonzero |
| TwoPartySigning.EcdsaSignExact | white-paper/white-paper.tex:99-107 | the textbook answer is the one solution of the signing equation with r and s nonzero, and exists exactly when r and e + r x are nonzero, however large s is |
| TwoPartySigning.SignExact | gotham-client/src/ecdsa/sign.rs:28-66 | the exchange answers exactly when r and e + r x1 x2 are nonzero modulo q, and with the one solution of the signing equation |
| TwoPartySigning.SignedChildVerifies | integration-tests/tests/ecdsa.rs:121-149 | what matching keys sign verifies under their public key, and so does its negation |
| ShareRotation.RotationMatches | gotham-client/src/ecdsa/rotate.rs:46-92 | after a rotation the keys match, Q and chain code are unchanged, the new ciphertext decrypts to r x1 and r x2' = x2 |
| ShareRotation.MixedSharesUseless | white-paper/white-paper.tex:145-146 | an old share with a rotated one makes up the key if and only if the rotation factor is 1 |
| ShareRotation.RotationCommutes | white-paper/white-paper.tex:157-157 | rotating before or after deriving gives both parties the very same keys, server ciphertext included |
| ShareRotation.RotationsInvisible | white-paper/white-paper.tex:145-157 | after any interleaving of rotations and derivations keys match, the share decrypts, and every child's public key and chain code are those without rotations |
| ShareRotation.SigningSurvives | gotham-client/src/ecdsa/rotate.rs:46-92 | after any such history signing under any child yields the textbook signature, verifying under the unrotated child key |
| BigEndian.RoundTrip | demo-wallet/src/ethereum/mod.rs:125-131 | minimal big-endian encoding decodes back to the number |
| BigEndian.PaddedDecodes | integration-tests/tests/ecdsa.rs:139-147 | the left-padded 64-byte form decodes to (r, s) |
| BigEndian.ConcatenationIff | demo-wallet/src/bitcoin/mod.rs:354-360 | concatenating minimal encodings is that form, and is accepted, if and only if both numbers need 32 bytes |
| BigEndian.CompactExact | demo-wallet/src/bitcoin/mod.rs:357-359 | a byte string decodes to (r, s) if and only if it is their padded form and both are below the group order |
| Selection.GreedyExact | demo-wallet/src/bitcoin/mod.rs:424-446 | the selection has the least count for which every choice exceeds the target and the least sum of that count, or else is everything and within the target |
| Selection.SortStable | demo-wallet/src/bitcoin/mod.rs:430-430 | outputs of equal value keep their order in the sort |
| Selection.CoversIff | demo-wallet/src/bitcoin/mod.rs:434-446 | for every target and amount, exactly when the selection covers the amount, in terms of the spendable outputs: by prefix sums of the sorted values, and by counts whose every choice exceeds the target |
| Selection.SelectionCovers | demo-wallet/src/bitcoin/mod.rs:434-446 | with the amount itself as target, the selection covers it if and only if the spendable funds do |
| Selection.FractionFallsShort | demo-wallet/src/bitcoin/mod.rs:434-434 | a fractional amount for which the selection falls short of sufficient funds |
| Selection.NoOverflow | demo-wallet/src/bitcoin/mod.rs:434-446 | a non-negative i64 target and i64 values never overflow the countdown, whatever they add up to |
| Ledger.BalanceIsUnspent | demo-wallet/src/bitcoin/mod.rs:489-501 | confirmed and unconfirmed balance of an address add up to its unspent outputs |
| Ledger.DrawnDistinct | demo-wallet/src/bitcoin/mod.rs:461-477 | whatever is drawn from the listed outputs is unspent in the ledger, each once |
| Ledger.SpendAllExact | demo-wallet/src/bitcoin/mod.rs:370-370 | a list of outpoints can be spent exactly when all are there unspent and none repeats, and only those coins are marked |
| Ledger.MinedBalance | demo-wallet/src/bitcoin/mod.rs:489-501 | a block settles the balances: nothing pending, and confirmed is what was unspent |
| Chain.AcceptsExactly | demo-wallet/src/bitcoin/mod.rs:370-373 | what a node accepts, in terms of the outputs it holds: distinct unspent inputs, each unlocked by a verifying signature under the locking key, outputs within inputs |
| Chain.NodeConserves | demo-wallet/src/bitcoin/mod.rs:370-373 | any accepted transaction, not only the wallet's, takes its inputs away, adds its outputs and never raises the total |
| WalletSpec.MapExact | demo-wallet/src/bitcoin/mod.rs:376-391 | the derivation map holds exactly positions 1 to last, each address with its position and child key, all distinct |
| WalletSpec.ScanExact | demo-wallet/src/bitcoin/mod.rs:503-520 | the scanned addresses are those of the map and position 0, without repetition |
| WalletSpec.AddressesExact | demo-wallet/src/bitcoin/mod.rs:503-530 | position p is at the address of the child key at [0, p]: scanned in order from 0 to last, stored with that key from 1 to last |
| WalletSpec.AdvanceConsistent | demo-wallet/src/bitcoin/mod.rs:522-530 | issuing an address keeps the map exact if and only if the u32 position does not wrap |
| WalletSpec.AdvanceExact | demo-wallet/src/bitcoin/mod.rs:376-391 | the address issued is that of the child at [0, last + 1], or [0, 0] when the u32 wraps, and is stored with that key |
| WalletSpec.SpendableIsUnspent | demo-wallet/src/bitcoin/mod.rs:424-431 | the flattened listing is, as a multiset, the unspent outputs of the watched addresses with a confirmed balance |
| WalletSpec.SpendableAppend | demo-wallet/src/bitcoin/mod.rs:424-429 | the listing goes address by address in scan order, each contributing its unspent outputs if it has a confirmed balance |
| WalletSpec.AvailableExact | demo-wallet/src/bitcoin/mod.rs:424-431 | what can be drawn on, in terms of the ledger: the unspent outputs at positions 0 to last with a confirmed balance, each once |
| WalletSpec.InputWitnessExact | demo-wallet/src/bitcoin/mod.rs:324-367 | an input gets a witness if and only if its address is stored and the signing equation for the stored child key has a full-width solution; the witness is that solution and verifies |
| WalletSpec.SendExact | demo-wallet/src/bitcoin/mod.rs:263-374 | exactly when send goes out: something available, no running total between 100,000,000 times the whole bitcoins and the amount, funds sufficient, nothing at position 0, full-width solutions of the signing equations |
| WalletSpec.ChosenCovers | demo-wallet/src/bitcoin/mod.rs:434-446 | the selection covers the amount exactly under that condition, and for a whole amount exactly when the funds do |
| WalletSpec.SendOutcome | demo-wallet/src/bitcoin/mod.rs:263-374 | the answer is the id of the transaction built; insufficient funds means nothing available and an untouched wallet; the ledger changes only if the payment goes out |
| WalletSpec.SentLedger | demo-wallet/src/bitcoin/mod.rs:295-320 | what a successful send changes in the total of any set of addresses containing the wallet's |
| WalletSpec.SendConserves | demo-wallet/src/bitcoin/mod.rs:295-313 | over any addresses including wallet, recipient and change the ledger total is unchanged |
| WalletSpec.BalanceAfterSend | demo-wallet/src/bitcoin/mod.rs:403-415 | change lands at an address now watched and the watched balance falls by the amount for an outside recipient |
| BitcoinWallet.BitcoinWallet.constructor | demo-wallet/src/bitcoin/mod.rs:123-136 | a new wallet is valid with no issued position |
| BitcoinWallet.BitcoinWallet.GetNewBitcoinAddress | demo-wallet/src/bitcoin/mod.rs:376-391 | issues the address of the child at the next position and stores it in place; valid afterwards if and only if the position did not wrap |
| BitcoinWallet.BitcoinWallet.Derived | demo-wallet/src/bitcoin/mod.rs:393-401 | rebuilding from an empty map gives the incrementally built one, and rebuilding a valid map changes nothing |
| BitcoinWallet.BitcoinWallet.GetAllAddresses | demo-wallet/src/bitcoin/mod.rs:503-520 | returns the addresses of positions 0 to last in order |
| BitcoinWallet.BitcoinWallet.GetBalance | demo-wallet/src/bitcoin/mod.rs:403-415 | confirmed plus unconfirmed is the total of unspent outputs at the watched addresses |
| BitcoinWallet.BitcoinWallet.TakeUntilExceeded | demo-wallet/src/bitcoin/mod.rs:434-446 | the countdown loop computes the greedy prefix whenever its i64 remainders do not overflow |
| BitcoinWallet.BitcoinWallet.SelectTxIn | demo-wallet/src/bitcoin/mod.rs:418-447 | selects greedily, for 100,000,000 times the whole bitcoins, from what is available; when the selection covers the amount is given exactly |
| BitcoinWallet.BitcoinWallet.SignInput | demo-wallet/src/bitcoin/mod.rs:325-365 | signs exactly when the address is stored and the signing equation has a full-width solution; the witness then carries the key at [0, pos] and verifies under it |
| BitcoinWallet.BitcoinWallet.SignInputs | demo-wallet/src/bitcoin/mod.rs:322-368 | fills every witness in a copy while all hashes are taken over the unsigned transaction |
| BitcoinWallet.BitcoinWallet.Send | demo-wallet/src/bitcoin/mod.rs:263-374 | wallet, ledger and outcome after send are those of the specification the theorems are about, and a payment that goes out returns its transaction id |
| Rotation.RotateMasterKey | gotham-client/src/ecdsa/rotate.rs:21-105 | builds a new valid wallet around the rotated key that matches the rotated server key |
| Rotation.RotationPreservesWallet | gotham-client/src/ecdsa/rotate.rs:89-104 | same id, network, addresses and positions, each stored key the child of the rotated master key with its old public key, x1 scaled by the factor and x2 by its inverse |
| WalletRuns.NewWalletStarts | demo-wallet/src/bitcoin/mod.rs:123-136 | a freshly generated wallet starts in the invariant |
| WalletRuns.RunKeeps | demo-wallet/src/bitcoin/commands.rs:130-265 | every run of new addresses, payments, rotations, receipts and blocks keeps the invariant and the address at every position |
| WalletRuns.ReachablePays | demo-wallet/src/bitcoin/mod.rs:263-374 | in every reachable state every selected output has a stored key and any amount is paid exactly if the available outputs reach it with no running total between target and amount and signatures are full width |
| WalletRuns.EndToEnd | demo-wallet/src/bitcoin/mod.rs:263-374 | after any run, a payment that goes out carries verifying signatures under the keys of the locking addresses, pays the amount to the recipient and the rest to the next position, returns the transaction id, conserves money and lowers the balance by exactly the amount |
| Accounting.RunAccounted | demo-wallet/src/bitcoin/commands.rs:130-265 | over any run the watched balance changes by what was received less what was paid to outsiders, one position is issued per address and payment, and the shares are scaled by the product of the factors and its inverse |
| Accounting.BlocksConfirm | demo-wallet/src/bitcoin/mod.rs:403-415 | a block settles every pending transaction, and nothing else moves a confirmed balance |
| Lifecycle.KeygenToPayment | gotham-client/src/ecdsa/keygen.rs:37-121 | the keys of a session served in any interleaving with others, with the shares drawn in it, start a wallet from which, after any run, requests are paid exactly under those conditions and every payment is sound |
| PublicGotham.IdifyInjective | gotham-server/src/public_gotham.rs:51-54 | without underscores in the ids a key determines customer, session and table, whatever the table names |
| PublicGotham.CollisionIff | gotham-server/src/public_gotham.rs:51-54 | two sessions can share a key if and only if one's key prefix is a prefix of the other's |
| PublicGotham.UnderscoresCollide | gotham-server/src/public_gotham.rs:51-54 | two different sessions that share a key in the same table |
| PublicGotham.SameTableCollisionIff | gotham-server/src/public_gotham.rs:51-54 | in one table two sessions share a key if and only if their key prefixes are equal |
| PublicGotham.KeysEqualIff | gotham-server/src/public_gotham.rs:51-54 | for table names without underscore a key determines table and key prefix, whatever the ids |
| PublicGotham.FlatRefinesTables | gotham-server/src/public_gotham.rs:56-91 | a read of a slot whose key no other written slot shares returns the last accepted write to exactly that customer, session and table, or nothing |
| PublicGotham.RefinementIff | gotham-server/src/public_gotham.rs:56-91 | the flat map behaves like separate tables on a collection of slots if and only if their keys differ |
| PublicGotham.Store.Insert | gotham-server/src/public_gotham.rs:58-68 | writes under customer_session_table when the database accepts, appends to the history the object stays true to, and reports success either way |
| PublicGotham.Store.Get | gotham-server/src/public_gotham.rs:70-91 | returns the last value accepted under the composed key, which is the last written to that slot when no other written slot shares the key |
| Sessions.SharesCombine | gotham-client/src/ecdsa/keygen.rs:102-116 | client and server assemble matching keys Q = x1 x2 G with the same Diffie-Hellman chain code |
| Sessions.ExchangeValid | gotham-client/src/ecdsa/keygen.rs:37-121 | no request of a valid session fails; each advances it one phase, a signing keeps the path and message asked for and returns the textbook signature |
| Sessions.RunAsIfAlone | gotham-server/src/server.rs:21-38 | in any interleaving of sessions with different key prefixes a session's client and tables end exactly as if its requests had been served alone |
| Sessions.TablesSharedIff | gotham-server/src/public_gotham.rs:51-54 | two sessions see the same tables in every store if and only if their key prefixes are equal |
| Sessions.RunAdvances | gotham-server/src/server.rs:21-38 | in every run every session stays in agreement and advances once per own request |
| Sessions.SessionTranscript | gotham-client/src/ecdsa/sign.rs:28-66 | in any interleaving a session's keys are those of its own draws, and its last signature answers the path and message of its own last signing request |
| Sessions.SessionsComplete | gotham-client/src/ecdsa/keygen.rs:37-121 | once its six requests are served a session holds a master key matching the server's |
| Escrow.SegmentsRoundTrip | demo-wallet/src/bitcoin/escrow.rs:17-18 | cutting into digits and reassembling returns the number if and only if it has no more digits, for any base and count |
| Escrow.BackupExact | white-paper/white-paper.tex:165-167 | segment i encrypts the digit of weight base^i as (d G + r Q, r G) |
| Escrow.WalletParametersFit | demo-wallet/src/bitcoin/escrow.rs:17-18 | 32 segments of 8 bits hold every share of a 256-bit group, and no more |
| Escrow.FindLog | white-paper/white-paper.tex:173-173 | bounded search finds the small logarithm or shows there is none |
| Escrow.LogUnique | white-paper/white-paper.tex:173-173 | each search has at most one hit |
| Escrow.Decrypt | gotham-client/src/ecdsa/recover.rs:57-67 | returns the reassembled digits, or fails exactly when some segment has no small logarithm |
| Escrow.BackupRoundTrip | demo-wallet/src/bitcoin/mod.rs:143-151 | a share's backup decodes under the escrow secret to the share and to nothing else |
| Escrow.CombinedIsElGamal | white-paper/white-paper.tex:165-171 | the weighted combination of the segments is one ElGamal encryption of the whole number |
| Escrow.BackupHidesPublicPoint | demo-wallet/src/bitcoin/mod.rs:169-187 | the client's backup combines to an encryption of its public point p2 |
| Escrow.RestoreShare | gotham-client/src/ecdsa/recover.rs:39-63 | decrypting a backup returns the share |
| Escrow.RecoveryYieldsKey | gotham-client/src/ecdsa/recover.rs:57-125 | the rebuilt server key derives the client's children on every path and keeps matching them, and the two child secrets multiply to the child's private key |
| EthereumWallet.GothamWallet.constructor | demo-wallet/src/ethereum/mod.rs:37-67 | the stored address is that of the child key at the first two entries of the path |
| EthereumWallet.GothamWallet.WithChainId | demo-wallet/src/ethereum/mod.rs:199-202 | sets the chain id and nothing else |
| EthereumWallet.GothamWallet.SignHash | demo-wallet/src/ethereum/mod.rs:103-135 | returns the one solution of the signing equation for the hash and the child key at the first two path entries, through its byte encodings |
| EthereumWallet.GothamWallet.SignTransaction | demo-wallet/src/ethereum/mod.rs:155-179 | signs the hash under the transaction's chain id or else the wallet's, folds that same id into v, and the result names chain and sender exactly without overflow and with x below the group order |
| EthereumWallet.SignatureRecovers | demo-wallet/src/ethereum/mod.rs:42-66 | the signature verifies, and recovers the key of the stored address if and only if the x coordinate was not reduced |
| EthereumWallet.Eip155Decodes | demo-wallet/src/ethereum/mod.rs:162-176 | v decodes to the chain id and recovery id if and only if the u64 sum does not overflow |
| EthereumWallet.TransactionRecovers | demo-wallet/src/ethereum/mod.rs:155-179 | decoding v gives the chain id of the signed hash and a recovery id yielding the key of the stored address, if and only if the u64 sum does not overflow and x was not reduced |

## Left out

- Zero-knowledge proofs, commitments and the PDL and range proofs: their rounds are requests that carry no data here and their checks are taken to pass; malicious parties are not modelled.
- The engine and library code behind the routes (gotham-engine, two-party-ecdsa) is not part of this model's sources; its arithmetic follows the white paper, and the table names in `Sessions.dfy` are illustrative: all the session theorems use of them is that they differ and have no underscore.
- Curve coordinates, hash functions, BIP143 and DER serialisation and address text are uninterpreted; addresses of different keys are taken to differ, children at different positions to have different keys, and transaction ids to be fresh.
- HTTP, JSON, RocksDB internals, files and settings; saving and loading a wallet is the identity, and a process that exits before saving leaves the saved wallet as it was.
- The C and Android wrappers, command line parsing and printing, and parsing of the recipient's address and network.
- BitcoinWallet.BitcoinWallet.TakeUntilExceeded: the wrapping of the i64 countdown, which takes a target or an output of more than 2^62 satoshi to reach, so `SelectTxIn` and `Send` require that it does not happen.
- Floating point: an amount is a pair of integers, the whole bitcoins the selection targets and the satoshis sent.
- Relay policy of nodes (fees, dust, version numbers): acceptance is by consensus rules on outputs, values and signatures.
- ERC20 transfers, balance display, gas and nonce setting, typed-data hashing, `granted` and `has_active_share`.
- The proof half of `backup` and `verify_backup`: only the equation between the ciphertexts and p2 is modelled.
- The restart of a session and the failure of a database write inside a session; `Store.Insert` itself models a failed write.
