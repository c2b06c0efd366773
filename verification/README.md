# Verified model of the quantum-resistant blockchain

This project models the parts of the node software whose guarantees span several functions and proves those guarantees.
`dafny verify dfyconfig.toml` checks all of it. It has four parts.

- **Version 2 consensus** (`ProtocolV2`, `BlockTree`, `ConsensusV2`, `SupplyV2`, `AcceptedV2`, `NodeV2`). A class holds
  the four parallel dictionaries, the tip and the block table. Its methods are proved against a tree of blocks under an
  admission rule; the theorems about all runs are proved for any such rule and then for the engine.
- **Version 0.1 chain** (`ChainV1`, `BranchesV1`, `AcceptedV1`, `LimitsV1`, `OriginsV1`, `NodeV1`, `Disputes`). A branch is
  valid when each of its blocks was valid in whatever environment (clock, signatures, review policy, frozen addresses)
  it met. The node class stores blocks, chooses a head and rebuilds its cached tables.
- **One-time signatures** (`MerkleTree`, `Lamport`, `Xmss`, `WalletStore`, `SigningRuns`, `RecoveryRuns`,
  `Signer`). The wallet database is a class of atomic transactions; runs interleave those of any number of signers under
  any clock.
- **Codecs and arithmetic** (`Utf8`, `CanonicalJson`, `PrintedText`, `Currency`, `Numerals`, `Base58`, `Bech32`,
  `Snapshot`, `ReplayWindow`, `CoinSelection`).

`Coins` holds unspent outputs and their totals, which both chain versions share; `Collections` and `Results` hold
sequences without repetition and the outcomes of operations. `ExampleV1` and `ExampleV2` exhibit accepted branches of
both versions, so the rules the theorems assume can be met.

An operation is proved against a predicate or a function. What these promise is then stated without naming them:
`AcceptedV1` and `AcceptedV2` read it off accepted branches, `PrintedText` off canonical texts, and the other modules
state such laws and published vectors next to their definitions.

## Conventions

- A hash that the source keeps as fixed-length hexadecimal text is an integer, so text order is integer order. Where the
  text itself is hashed again (`MerkleTree`, `Snapshot`) it is text.
- Hash functions, signature providers, address rules, size functions and canonical encoders of whole objects are
  function-valued parameters of a network, configuration or codec record. Nothing is assumed of them except where a
  lemma says so: `IsHash` and `ProperHashes` (output length), `DigestLaw` (32 bytes), `CodecLaw` (output length and
  injective texts), and that a block offered to a version 0.1 node does not have the all-zero hash, which marks the root.
  Collision resistance is never assumed: where it matters a lemma concludes that two texts or preimages taken from its
  own arguments collide.
- An exception is the result `Rejected`; its text is documentation.
- Timestamps are integers. Only the replay window uses real clock readings, because whole seconds are cut off there.

## Where the code and its description differ

- The version 2 engine compares transfer IDs with each other but not with genesis allocation IDs, nor those with each
  other. Preimages carry the domain and the index, so exact supply and unique creation fail exactly when the hash
  collides on two of them (`BranchSupply`, `CreatedOnceIff`, with the input in `CollidingAllocationsLoseSupply`).
- A request reads the clock once for its timestamp and again for its nonce. With any delay between the two, one envelope
  can be accepted twice at the very edge of the window (`LagAllowsReplay`, `ReplayFreeIff`).
- Operator recovery looks at the newest reservation by recorded time. A clock that repeats or goes back between two
  reserves of a key can make it miss the reservation that blocks the key (`TwoReservesIff`); a clock that rises from
  reserve to reserve cannot (`RisingClockReachesBlocker`).
- A process that stops between storing a version 0.1 block and comparing it with the head never compares it again
  (`StopLeavesHeadBehind`, with the exact condition in `HeadIsMaximumIff`).
- Base58Check adds a zero byte to an all-zero payload and checksum (`ZerosGrow`, `DecodeInvertsEncode`).
- An empty address list makes the output listing return every output (`ListUtxos`).
- A source can become active, or stay so, while a dispute on it is pending, for instance when another one expires or the
  process stops while opening it (`ExpiryReactivatesSource`, `StoppedOpenLeavesSourceActive`). `GuardedThroughoutIff`
  says for which runs this does not happen; the outputs stay frozen in any case.
- A leaf digest joins the halves of a public key without separators, so it binds the key exactly when the halves are
  equally long (`SameLeafIff`, with the failing input in `OtherLeafAccepted`).
- When writing an accepted version 2 block fails, memory keeps it and later blocks may be written on top of it. A restart
  then fails exactly when a row's parent is missing (`Restart`, with an input in `FailedWriteBreaksRestart`).

## Model

| member | source | states |
|---|---|---|
| ConsensusV2.OrderIndependence | qr_blockchain/protocol_v2_consensus.py:259-314 | Nodes of one network, each fed parents first, such that what either stored was offered to the other, end with equal blocks, states, transaction-ID sets, work and tip, whatever the order, repetitions and refused blocks that only one of them saw, or two of the blocks offered to one of them exhibit a hash collision |
| ConsensusV2.SameBlocksSameTree | qr_blockchain/protocol_v2_consensus.py:259-314 | In particular nodes offered the same set of blocks end with the same tree |
| BlockTree.AncestorsDecide | qr_blockchain/protocol_v2_consensus.py:259-301 | Whether a block is accepted, and under what parent state, is the same in any two reachable trees in which its parent has the same branch |
| BlockTree.AcceptedWhenOffered | qr_blockchain/protocol_v2_consensus.py:266-272 | Under a parents-first feed a block that is acceptable at any later time is already acceptable each time it is offered |
| BlockTree.DeliverGrows | qr_blockchain/protocol_v2_consensus.py:298-314 | Any offered block, good or bad, keeps the tree invariant and every stored entry and never lowers the rank of the tip |
| BlockTree.BestTipUnique | qr_blockchain/protocol_v2_consensus.py:310-314 | The head with most work, smallest hash on ties, is unique: equal entries imply an equal tip |
| ConsensusV2.TipIsHighest | qr_blockchain/protocol_v2_consensus.py:297-314 | The tip of every reachable tree is the highest stored block, and of the highest ones that with the smallest hash |
| BlockTree.EntryIsReplay | qr_blockchain/protocol_v2_consensus.py:269-301 | Every memoised state, transaction-ID set and work is the replay of that block's path from genesis |
| ConsensusV2.RestartRestoresRun | qr_blockchain/protocol_v2_consensus.py:205-233 | Replaying the stored rows by height refuses none and restores the tree, states, work and tip of any run |
| ConsensusV2.PairwiseSyncConverges | qr_blockchain/protocol_v2_consensus.py:310-325 | After A syncs from B and then B from A both have the better of the two original tips and the same canonical state, or their blocks exhibit a hash collision |
| BlockTree.BranchAccepted | qr_blockchain/protocol_v2_consensus.py:316-325 | A peer's canonical branch is accepted whole, and each block gets the entry the peer holds for it |
| ConsensusV2.SameHashSameBlock | qr_blockchain/protocol_v2_consensus.py:289-296 | Two accepted blocks under one hash are the same block, or a block or transfer preimage collides |
| ProtocolV2.ValidateTransfer | qr_blockchain/protocol_v2.py:106-170 | Accepts exactly the transfers that meet the object-level rules, and returns the owner of each input |
| ProtocolV2.ApplyTransfer | qr_blockchain/protocol_v2.py:235-276 | Accepts exactly when every input is live and owned, value balances without overflow and no output outpoint is taken; the new state is the inputs removed and the outputs added |
| ProtocolV2.ValidateState | qr_blockchain/protocol_v2.py:279-292 | Accepts exactly the well-formed states and returns their root |
| NodeV2.DeriveGenesis | qr_blockchain/protocol_v2_consensus.py:33-67 | Accepts exactly the ascending, well-formed allocations that add up to the maximum supply, and returns their outputs |
| NodeV2.CheckGenesis | qr_blockchain/protocol_v2_consensus.py:172-203 | Accepts exactly the genesis block the manifest pins |
| NodeV2.CheckBlock | qr_blockchain/protocol_v2_consensus.py:261-294 | Accepts exactly the blocks admissible under the parent's entry; the result is the child entry |
| NodeV2.ConsensusNode.AcceptBlock | qr_blockchain/protocol_v2_consensus.py:259-308 | The four dictionaries and the tip become those of the tree after the delivery and the table gets the block unless writing it fails; a refused or repeated block changes nothing |
| NodeV2.ConsensusNode.CanonicalBlocks | qr_blockchain/protocol_v2_consensus.py:245-254 | The parent walk from the tip terminates and returns the tip's branch behind the genesis |
| NodeV2.ConsensusNode.SyncFrom | qr_blockchain/protocol_v2_consensus.py:316-325 | A foreign handshake or genesis is refused without effect; otherwise blocks are accepted in order up to the first refusal; the tip never loses rank |
| NodeV2.ConsensusNode.Open | qr_blockchain/protocol_v2_consensus.py:205-233 | A fresh database yields the genesis tree; a filled one is replayed in some order by height and refused when the genesis is missing or a block is |
| NodeV2.Restart | qr_blockchain/protocol_v2_consensus.py:205-243 | Reopening succeeds if and only if the table holds the parent of every block in it, and yields those blocks with the entries they had; when no write failed it yields the same tree, states, work and tip |
| BlockTree.ReloadIffParentsListed | qr_blockchain/protocol_v2_consensus.py:205-233 | Replaying some of the stored blocks by height succeeds if and only if the parent of each is among them, and then yields that part of the tree with its own best tip |
| ExampleV2.FailedWriteBreaksRestart | qr_blockchain/protocol_v2_consensus.py:298-308 | Two admissible blocks of which only the second was written: the table lacks a parent |
| SupplyV2.BranchSupply | qr_blockchain/protocol_v2_consensus.py:273-281 | On every stored branch the live total is at most the maximum supply minus all fees burned, and equals it if and only if the hash preimages of no two allocations of the manifest collide |
| SupplyV2.SupplyAndOverflowChecksNeverFire | qr_blockchain/protocol_v2.py:243-255 | The post-block supply check cannot fire on any reachable state, nor can the input-sum overflow check after any number of inputs that were distinct and live so far |
| SupplyV2.BranchOutpoints | qr_blockchain/protocol_v2_consensus.py:270-280 | Each outpoint of a branch is created once, spent at most once, and the live ones are those created and not spent, or the preimages of two allocations, or of an allocation and a transfer of the branch, collide |
| SupplyV2.CreatedOnceIff | qr_blockchain/protocol_v2_consensus.py:56-64 | No outpoint is created twice on a branch if and only if no two of those preimages collide |
| SupplyV2.DuplicateOutpointCheckFiresIff | qr_blockchain/protocol_v2.py:264-276 | The duplicate-outpoint check fires for a valid transfer of a new ID if and only if its preimage collides with that of an allocation whose output is live and not spent by the transfer itself |
| SupplyV2.RepeatedIdsCollide | qr_blockchain/protocol_v2_consensus.py:56-60 | Allocation IDs repeat, or a transfer has the ID of an allocation, if and only if their preimages collide: index and domain keep the preimages apart |
| ExampleV2.CollidingAllocationsLoseSupply | qr_blockchain/protocol_v2_consensus.py:56-64 | A valid genesis under a hash that gives two allocations one ID: it issues 40 of 100 |
| ExampleV2.ChildIsAdmissible | qr_blockchain/protocol_v2_consensus.py:259-301 | A valid genesis and a block with a transfer that is accepted on it |
| SupplyV2.StoredEntryIsOneRun | qr_blockchain/protocol_v2_consensus.py:270-280 | A stored state is the result of one uninterrupted run of all transfers of its branch from the genesis state |
| AcceptedV2.SpendsAreAuthorised | qr_blockchain/protocol_v2.py:243-251 | On every stored branch each input of each transfer names an output that is live at that moment, and the provider finds its signature over the transfer to be the recipient's: nobody spends another owner's coin |
| AcceptedV2.SignatureCovers | qr_blockchain/protocol_v2.py:190-205 | Two transfers have one signature preimage if and only if they agree on everything but public keys, signatures and the ID |
| AcceptedV2.StateIsReplay | qr_blockchain/protocol_v2.py:264-276 | The stored state of a block is what removing the named inputs and adding the listed outputs of its branch, transfer by transfer, leaves of the genesis outputs |
| AcceptedV2.LiveOutputIsItsCreation | qr_blockchain/protocol_v2.py:266-275 | A live output under the ID of a transfer of its branch is the coin which that transfer lists at its index |
| AcceptedV2.TransfersAreSound | qr_blockchain/protocol_v2.py:106-170 | Every transfer of a stored branch is of the network and scheme list, has distinct inputs, positive bounded outputs to valid addresses, the size limits and an ID that commits to its content, which no earlier transfer of the branch has |
| AcceptedV2.BlocksAreSound | qr_blockchain/protocol_v2.py:327-354 | Every stored block above the genesis links to its stored parent one height below, is later by at most the allowed step, carries the fixed proof of work under a hash that commits to it, keeps the manifest's limits and commits to the state stored for it |
| AcceptedV2.BlockHashCovers | qr_blockchain/protocol_v2.py:320-325 | Two blocks have one hash preimage if and only if they agree on the header fields and on the transfer IDs in order |
| AcceptedV2.WorkAndIds | qr_blockchain/protocol_v2_consensus.py:297-308 | The stored work of a block is that of the fixed difficulty once for every height, and its stored transaction IDs are those of its branch |
| AcceptedV2.GenesisIsSound | qr_blockchain/protocol_v2_consensus.py:33-67 | A valid genesis names each recipient once, with a valid address and a positive amount, and issues the maximum supply; it is the empty block of height 0 that commits to the allocated outputs under the pinned hash |
| AcceptedV2.GenesisPaysOnly | qr_blockchain/protocol_v2_consensus.py:56-64 | Every genesis output is the coin of an allocation under its ID |
| AcceptedV2.GenesisPaysAll | qr_blockchain/protocol_v2_consensus.py:56-64 | Every allocation has its output unless a later one has the same ID |
| BranchesV1.BranchConserves | qr_blockchain/service.py:270-331 | At every transaction of every block past genesis on every accepted branch, a non-reward transfer has inputs equal to outputs plus fee and no new output overwrites a live outpoint, although the transaction rule only says "not more than" |
| BranchesV1.TransactionRulesAllowLoss | qr_blockchain/service.py:5376-5378 | The transaction rules alone admit a transfer that spends more than it pays |
| BranchesV1.AcceptedBlockConserves | qr_blockchain/service.py:322-331 | Block-level reconciliation forces that equality at every transaction of a single accepted block |
| BranchesV1.BranchReconciled | qr_blockchain/service.py:722-731 | After every accepted branch the live total equals the independently computed issued supply, and every live amount is positive |
| BranchesV1.ScanIsReplay | qr_blockchain/service.py:270-320 | After each transaction the validator's running UTXO view and origin metadata equal the storage replay of the same prefix |
| BranchesV1.AcceptedViewIsReplay | qr_blockchain/service.py:326-331 | The validator's final view is the replay of the branch that ends in the block |
| AcceptedV1.SpendsVerified | qr_blockchain/service.py:5341-5352 | Every spend of an accepted block passed signature verification against the replay of its branch and of the transactions before it, where all its inputs are live and distinct |
| AcceptedV1.TransactionsAreSound | qr_blockchain/service.py:5303-5332 | Every transaction of an accepted block is of the chain and commits to its content, pays positive amounts and is not later than the block; only the first creates coins without a claim; each claim was admitted, mints one output and names an address the branch never claimed |
| AcceptedV1.RewardIsSubsidyAndFees | qr_blockchain/service.py:322-325 | The first transaction of an accepted block has one output, which pays the miner the subsidy of the height and the sum of all fees |
| AcceptedV1.BlockIsSound | qr_blockchain/service.py:193-245 | An accepted block extends its parent by one height and rises in time, its hash commits to it with the configured work, and its state root is that of the replay of the branch it ends, from the activation height on in any case |
| AcceptedV1.BranchIsSound | qr_blockchain/service.py:239-326 | Every block past the genesis of an accepted branch keeps those rules and the exact reward, whichever node accepted it |
| AcceptedV1.GenesisIsSound | qr_blockchain/service.py:213-237 | An accepted genesis is the start of a chain with one inputless, fee-free transfer of positive amounts, a hash that commits to it with one zero digit, and a matching state root |
| LimitsV1.ClaimedAtMostOnce | qr_blockchain/service.py:263-302 | On every accepted branch each classical address is minted for at most once |
| LimitsV1.EpochsWithinCap | qr_blockchain/service.py:827-843 | Migration value minted in each epoch stays within a positive epoch cap |
| AcceptedV1.EpochsAreCapped | qr_blockchain/service.py:827-843 | Claims in the blocks of any epoch's run of heights together pay at most a positive epoch cap; an epoch length below one counts as one |
| LimitsV1.SupplyWithinCaps | qr_blockchain/service.py:817-825 | On every branch past genesis the genesis, emission, migration and total supply stay within their configured caps |
| AcceptedV1.IssuanceIsCapped | qr_blockchain/service.py:781-825 | On every accepted branch the live total is the genesis outputs, the subsidies of all heights and what claims paid, and past the genesis each of these and their sum stays within its cap |
| LimitsV1.SubsidyIsCumulative | qr_blockchain/service.py:781-805 | The subsidy issued on a branch is the policy's cumulative subsidy of its height, so the emission check never fires |
| LimitsV1.BranchHeights | qr_blockchain/service.py:242-244 | Block heights on an accepted branch are 0, 1, 2, and so on |
| OriginsV1.OriginsCoverLiveOutputs | qr_blockchain/service.py:742-766 | Origin metadata has exactly the live outpoints as its domain, on any path |
| OriginsV1.OriginIsLatestCreation | qr_blockchain/service.py:746-765 | An outpoint has metadata if and only if some transaction created it and none spent or created it since; the metadata is that of this latest creation |
| OriginsV1.LiveOutputIsItsCreation | qr_blockchain/storage.py:1007-1012 | On any path an output is live if and only if some transaction created it last and none spent it since, and it is the coin which that transaction lists at its index |
| OriginsV1.SpendTiming | qr_blockchain/service.py:5354-5374 | On every accepted branch, whatever transaction spends an output, the transaction of the branch that created it last stands at least the coinbase maturity below when it is a reward, and at least the escrow time below when it is a migration claim |
| OriginsV1.CreatedLastSomewhere | qr_blockchain/service.py:742-766 | The event that created an output last is one transaction of the path, and no transaction between it and the spend touches the output |
| OriginsV1.FrozenIsNotSpent | qr_blockchain/service.py:5364-5371 | No accepted block spends an output that a claim on an address created last while the address is frozen |
| NodeV1.CheckTransaction | qr_blockchain/service.py:5292-5378 | Accepts exactly the transactions valid against a view, metadata and set of claimed addresses |
| NodeV1.CheckSpend | qr_blockchain/verification.py:153-205 | Refuses repeated inputs, unknown outputs, failed signatures, immature or frozen outputs and overspending, and nothing else |
| NodeV1.ScanAll | qr_blockchain/service.py:261-320 | The loop over a block's transactions computes the stepwise scan of the parent's view |
| NodeV1.CheckBlock | qr_blockchain/service.py:239-331 | Accepts exactly the blocks valid under their parent's path |
| NodeV1.CheckGenesis | qr_blockchain/service.py:213-237 | Accepts exactly the valid genesis blocks |
| NodeV1.ApplyBlock | qr_blockchain/storage.py:1007-1012 | Popping inputs and writing outputs in place computes the same transition as every other replay of a block |
| NodeV1.SumSupply | qr_blockchain/service.py:781-815 | The supply loop computes genesis, subsidy and minted amounts of a path |
| NodeV1.ChainNode.PathToRoot | qr_blockchain/storage.py:307-317 | The cursor loop terminates because heights strictly decrease, and returns the path from the root |
| NodeV1.ChainNode.ValidateBlock | qr_blockchain/service.py:193-249 | Accepts exactly the importable blocks: not stored, and a genesis for an empty store or a valid child of a stored parent, with all spends verified |
| NodeV1.ChainNode.StoreBlock | qr_blockchain/storage.py:916-943 | The block row is added with the cumulative work of its path; stored branches are untouched |
| NodeV1.ChainNode.ApplyBestChain | qr_blockchain/storage.py:945-1005 | The canonical flags, UTXO table and claims table become the replay of the new head's path |
| NodeV1.ChainNode.ImportBlock | qr_blockchain/service.py:186-191 | After every import the head is the maximum by work and hash over all compared blocks, and every cached table is a replay of its path; nothing with an unverified spend or an unadmitted claim is imported; only a process that stops between storing and comparing leaves a block uncompared; a refused block changes nothing |
| NodeV1.ImportableIsVerified | qr_blockchain/service.py:186-191 | In a block that may be imported every spend passes signature verification on its branch and every claim is admitted |
| NodeV1.ChainNode.SelectBestChain | qr_blockchain/service.py:5425-5443 | Switches exactly when the candidate beats the head, so that the head is the maximum over the compared blocks again |
| NodeV1.HeadIsMaximumIff | qr_blockchain/service.py:186-191 | The head is the maximum over all stored blocks if and only if it beats each block that was stored but never compared |
| NodeV1.StoppedImportKeepsMaximumIff | qr_blockchain/service.py:186-191 | An import that stops before the comparison keeps the head the maximum over all stored blocks if and only if the comparison would not have switched |
| NodeV1.DescendantRepairs | qr_blockchain/service.py:5425-5443 | A skipped block stops mattering once a descendant of it has been compared: the head beats it |
| ExampleV1.StopLeavesHeadBehind | qr_blockchain/service.py:186-191 | A process that stops after storing a block leaves a head that a stored block beats |
| NodeV1.SelectionKeepsBest | qr_blockchain/service.py:5425-5443 | Comparing only the newcomer with the incumbent keeps the head the maximum over all compared blocks |
| NodeV1.HeadIsHighest | qr_blockchain/service.py:5425-5443 | Because difficulty is fixed, the head is the highest compared block, and of the highest ones that with the greatest hash |
| NodeV1.SameBlocksSameTables | qr_blockchain/service.py:5425-5443 | Nodes that store the same blocks, all of them compared, have the same head, work, flags, UTXO table and claims table, whatever order the blocks came in |
| NodeV1.CachedTablesReconciled | qr_blockchain/storage.py:945-1005 | The cached UTXO table always carries exactly the issued supply, and the claims table has one row per minted claim |
| NodeV1.ReplaceNeverReplaces | qr_blockchain/storage.py:976-997 | On an accepted branch the insert-or-replace into the claims table never replaces a row |
| Disputes.FraudIsFinal | qr_blockchain/service.py:1150-1171 | Once a dispute on an address resolves as fraud its outputs are frozen after every later run, even when other disputes expire or resolve valid and the source becomes active |
| Disputes.FraudIff | qr_blockchain/service.py:1293-1319 | An address counts as fraudulent if and only if some action of the run found fraud in a pending dispute on it |
| Disputes.FraudIsNeverSpent | qr_blockchain/service.py:5364-5371 | No block validated after a fraud finding, or while a dispute is pending, spends an output that a claim on the address created last |
| Disputes.FinalityIsMaturity | qr_blockchain/service.py:1150-1187 | The finality status and the spending rule of block validation agree |
| Disputes.UnlockedIff | qr_blockchain/service.py:1150-1187 | An output is spendable if and only if every dispute on its address ended without a fraud finding, its source is neither quarantined nor revoked and its escrow is over |
| Disputes.DisputeChanges | qr_blockchain/service.py:1271-1334 | No action changes a dispute's address or deadline; a pending dispute takes evidence up to its deadline, expires exactly behind it and is resolved by a resolution alone; an ended one stays |
| Disputes.EvidenceUntilExpiry | qr_blockchain/service.py:1278-1284 | Evidence is taken at a height if and only if an expiry at that height would leave the dispute pending |
| Disputes.ExpiryReactivatesSource | qr_blockchain/service.py:1321-1334 | A run in which an expiring dispute reactivates a source that another open dispute still concerns, and the output stays frozen |
| Disputes.StoppedOpenLeavesSourceActive | qr_blockchain/service.py:1253-1261 | A process that stops between opening a dispute and quarantining the source leaves the source active, and the output frozen |
| Disputes.GuardKeptIff | qr_blockchain/service.py:1232-1334 | An allowed action leaves every disputed source quarantined or revoked if and only if it is safe: it does not set active or seed a source with a pending dispute, resolve one dispute as valid while another is pending, expire one before another, or stop between opening a dispute and quarantining its active source |
| Disputes.GuardedThroughoutIff | qr_blockchain/service.py:1232-1334 | Throughout a run every disputed source stays quarantined or revoked if and only if every action that is not refused is safe at its moment |
| Disputes.DisputeDesk.SeedMigrationSource | qr_blockchain/service.py:4360-4404 | Adds a source, or makes a known one active again |
| Disputes.DisputesHaveSources | qr_blockchain/service.py:1232-1261 | Every dispute is on a known source, so no dispute action fails halfway |
| Disputes.DisputeDesk.OpenDispute | qr_blockchain/service.py:1232-1269 | The two tables become those after the action, whether or not the process stops between its two transactions, and the action is refused exactly when it is not allowed |
| Disputes.DisputeDesk.ResolveDispute | qr_blockchain/service.py:1293-1319 | Only a pending dispute resolves; fraud revokes its source, validity reactivates it |
| Disputes.DisputeDesk.Expire | qr_blockchain/storage.py:1108-1121 | Every lapsed pending dispute expires and exactly the sources of those become active |
| Disputes.DisputeDesk.OutputFinality | qr_blockchain/service.py:1150-1187 | An output is unlocked if and only if its address is not frozen and its escrow has passed |
| SigningRuns.LeavesNeverReused | qr_blockchain/wallet_store.py:156-325 | In every interleaving of create, reserve, complete, fail, refresh and recover steps by any number of signers, with crashes and any clock, the leaves issued for an XMSS key are exactly 0 to next_index - 1, each once |
| SigningRuns.StepKeepsInv | qr_blockchain/wallet_store.py:156-368 | Every honest step keeps that invariant, at most one open reservation per key, and the log of issued states |
| SigningRuns.CompleteRewritesStoredState | qr_blockchain/wallet_store.py:259-325 | A successful complete writes back exactly the state its own reserve stored |
| SigningRuns.ReserveKeepsOneBlocker | qr_blockchain/wallet_store.py:574-600 | Whatever the provider, granting a reservation leaves at most one pending or recovery-requiring reservation per key |
| SigningRuns.GrantIff | qr_blockchain/wallet_store.py:156-257 | A reservation is granted if and only if the key is stored with material left, the ID is new, and none of the key's reservations awaits recovery, is pending before its expiry, or lapsed without having advanced the key |
| SigningRuns.RowChanges | qr_blockchain/wallet_store.py:259-368 | A pending reservation is completed, or fails, exactly by its holder's own report with the same key, provider and owner, and lapses only at or after its deadline; closed ones stay, and no step changes its owner, key, material or times of creation and expiry |
| SigningRuns.RecoveryReachesBlockerIff | qr_blockchain/wallet_store.py:469-522 | Recovery is certain to reach the blocking reservation of a table if and only if every other reservation of the key was created earlier |
| RecoveryRuns.RisingClockReachesBlocker | qr_blockchain/wallet_store.py:469-522 | In every run under any provider in which the clock rises from each reserve of a key to the next, recovery reaches every reservation that requires it |
| RecoveryRuns.TwoReservesIff | qr_blockchain/wallet_store.py:469-522 | A key reserved, released and reserved again, then lapsed: recovery is certain to reach it if and only if the second reserve read a later clock than the first |
| WalletStore.WalletDatabase.Reserve | qr_blockchain/wallet_store.py:156-257 | A reservation is granted exactly when nothing blocks the key after expiry, the key exists, material is left and the ID is new; the state and the reservation row change together or not at all |
| WalletStore.WalletDatabase.Complete | qr_blockchain/wallet_store.py:259-325 | Only the pending reservation of the same key and owner completes; the key state and the row change together |
| WalletStore.WalletDatabase.Fail | qr_blockchain/wallet_store.py:327-368 | Only the owner's pending reservation becomes failed |
| WalletStore.WalletDatabase.Recover | qr_blockchain/wallet_store.py:469-522 | Recovery closes the newest reservation of the key if it requires recovery, and is refused otherwise |
| WalletStore.WalletDatabase.Expire | qr_blockchain/wallet_store.py:554-572 | Every lapsed pending reservation expires, or requires recovery when the key state did not advance; none stays pending and no other row changes |
| WalletStore.WalletDatabase.KeyIsAvailable | qr_blockchain/wallet_store.py:574-600 | Looking only at the newest blocking row decides whether any row blocks |
| Signer.LocalSigner.SignForAddress | qr_blockchain/signer.py:123-153 | A granted call uses exactly one leaf whether signing raises or not, leaves no open reservation, keeps signer and database in agreement, and a returned signature is accepted |
| Signer.LocalSigner.FinishSigning | qr_blockchain/signer.py:125-152 | Whatever happened since the reserve: a reservation still pending is completed, or fails when signing raises; one that was closed or expired is left alone and the signature is withheld |
| Signer.SigningIsHonest | qr_blockchain/signer.py:89-152 | Reserve and completion of a signer are honest steps of a run whatever honest steps of others come in between, so the invariant of all runs holds through them |
| Signer.LocalSigner.ReserveKeyUsage | qr_blockchain/signer.py:89-111 | The signer's copy becomes the advanced state the database holds, or nothing changes |
| MerkleTree.PathRecomputesRoot | qr_blockchain/crypto.py:127-160 | For any power of two of leaves every authentication path has the height of the tree and recomputes the root |
| MerkleTree.DifferentPathsCollide | qr_blockchain/crypto.py:151-160 | Two different (leaf, path) pairs accepted at one index against one root hash two different texts to one digest at the same step of their two walks |
| MerkleTree.BuildTree | qr_blockchain/crypto.py:127-148 | The bottom-up loop computes the recursive root and every authentication path |
| MerkleTree.RecomputeRoot | qr_blockchain/crypto.py:151-160 | The loop computes the root that a path leads to |
| MerkleTree.RootOfHalves | qr_blockchain/crypto.py:123-148 | The root built from below is, read from above, the digest of the roots of its two halves in order, and one leaf is its own root |
| Xmss.ReservedSignatureVerifies | qr_blockchain/crypto.py:332-360 | Whatever leaf is reserved from a generated key, its signature on any message verifies |
| Xmss.AcceptedAtOneIndexAgree | qr_blockchain/crypto.py:242-286 | Signatures accepted at one index of one public key have the same leaf digest and path, or the walks from their two leaves collide at some step |
| Xmss.AcceptedKeysAgree | qr_blockchain/crypto.py:242-286 | When all public-key halves are digests of 64 characters they have the same leaf key and path, or two of the texts hashed for them collide |
| Xmss.SameLeafIff | qr_blockchain/lamport.py:74-77 | Two leaves of one digest whose texts do not collide are the same key if and only if corresponding halves are equally long |
| Xmss.OtherLeafAccepted | qr_blockchain/crypto.py:11-14 | Without that the digest does not bind the key: where neighbouring message bits are 0 and 1, an accepted signature stays accepted with another leaf key |
| Xmss.VerifySignature | qr_blockchain/crypto.py:242-286 | Accepts exactly when root, height, index, path length, one-time signature and recomputed root fit |
| Xmss.Generate | qr_blockchain/crypto.py:95-110 | A generated key is a complete tree over its leaves with nothing issued |
| Lamport.Verify | qr_blockchain/lamport.py:59-71 | The early-exit loop accepts exactly when there are 256 secrets and rows and every secret hashes to the right half of its row if the bit of the digest at that place is set and to the left half otherwise |
| Lamport.BitsDenoteDigest | qr_blockchain/lamport.py:20-21 | The message bits in order are the binary numeral of the number that the digest denotes in base 256 |
| Lamport.VerifiesForBothIff | qr_blockchain/lamport.py:59-71 | A signature that verifies for one message verifies for another if and only if every row on which the bits of their digests differ has equal halves |
| Lamport.OneDigestPerSignature | qr_blockchain/lamport.py:59-71 | One signature verifies for one digest alone unless a row of the key has equal halves |
| Xmss.AcceptedForOneDigest | qr_blockchain/crypto.py:242-286 | An accepted signature is accepted for no message of another digest unless a row of its leaf key has equal halves |
| Xmss.LeafIndexIsUnique | qr_blockchain/crypto.py:253-267 | No two accepted signatures of one public key have leaf indices that differ but agree in their low bits |
| Xmss.LeafIsNoNode | qr_blockchain/crypto.py:119-124 | A leaf digest equals that of an inner node only if the two texts collide |
| CanonicalJson.ReadPrinted | qr_blockchain/portable_encoding.py:19-63 | Reading the printed form of any value, whatever follows it, returns that value and stops at its end |
| CanonicalJson.ParseIffCanonical | qr_blockchain/portable_encoding.py:95-122 | The parser accepts an input as a value if and only if the input is the canonical bytes of that value |
| CanonicalJson.ReaderDoesNotMatter | qr_blockchain/portable_encoding.py:110-122 | Any JSON reader that reads printed texts correctly gives the same parser, whatever it does with other texts |
| CanonicalJson.ParsersAgree | qr_blockchain/protocol_v2.py:71-103 | The version 2 parser of persisted and exchanged objects accepts, within its size limit, exactly what the strict parser accepts, with the same value |
| CanonicalJson.CanonicalInjective | qr_blockchain/portable_encoding.py:66-68 | Every value of the profile has canonical bytes and different values have different ones, objects compared by content |
| CanonicalJson.TextLikeBytes | qr_blockchain/portable_encoding.py:105-122 | Text input is parsed like its UTF-8 bytes and accepted if and only if it is the printed form |
| CanonicalJson.SortedKeysUnique | qr_blockchain/portable_encoding.py:58-60 | Sorting keys by UTF-8 bytes gives the only listing in ascending code-point order |
| PrintedText.ObjectGrows | qr_blockchain/portable_encoding.py:53-60 | A member whose key has greater UTF-8 bytes than every other is printed last, after a comma, as quoted key, colon and value; with the empty object this determines the text of every object |
| PrintedText.ArrayGrows | qr_blockchain/portable_encoding.py:51-52 | Arrays print their items in order between brackets, parted by commas alone |
| PrintedText.StringGrows | qr_blockchain/portable_encoding.py:19-35 | Each further character of a string is printed before the closing quote: quote and backslash with a backslash, control characters as six-character escapes in lower-case hexadecimal, all others as they are |
| PrintedText.IntegerTexts | qr_blockchain/portable_encoding.py:45-48 | Integers are printed in decimal, digit after digit, with a minus sign when negative and no leading zero |
| PrintedText.LiteralTexts | qr_blockchain/portable_encoding.py:38-44 | The texts of null, true, false and of the empty string, array and object |
| PrintedText.CanonicalFormExists | qr_blockchain/portable_encoding.py:38-63 | A value has canonical bytes if and only if its integers are signed 64-bit ones, its strings and keys have no surrogates and it holds nothing else, at any depth |
| PrintedText.PreimageReads | qr_blockchain/portable_encoding.py:125-130 | What is hashed is the profile name, a zero byte, the domain, a zero byte and the canonical bytes |
| PrintedText.DomainsAreTokens | qr_blockchain/portable_encoding.py:125-128 | A preimage exists exactly for domains of 1 to 64 lower-case letters, digits and, behind the first character, dots, underscores, slashes and hyphens |
| CanonicalJson.PreimageInjective | qr_blockchain/portable_encoding.py:125-130 | The hash preimage determines both the domain and the value |
| CanonicalJson.EqualHashes | qr_blockchain/portable_encoding.py:125-130 | Equal hashes mean the same domain and value, or that the two preimages differ and collide |
| CanonicalJson.EncodeString | qr_blockchain/portable_encoding.py:19-35 | The escaping loop returns the UTF-8 bytes of the quoted text and refuses exactly the strings with surrogates |
| Utf8.DecodeEncoded | qr_blockchain/portable_encoding.py:35 | Strict decoding inverts encoding |
| Utf8.EncodeDecoded | qr_blockchain/portable_encoding.py:103-104 | Every byte string that decodes is the encoding of the result, so overlong forms are refused |
| Utf8.EncodeKeepsOrder | qr_blockchain/portable_encoding.py:58 | Byte order of encoded strings is code-point order |
| PrintedText.KnownEncodings | qr_blockchain/portable_encoding.py:35 | The examples of section 7 of RFC 3629 with two, three and four bytes to a character |
| Currency.CumulativeUncapped | qr_blockchain/currency.py:34-50 | The segment-skipping loop equals the sum of the per-height uncapped subsidies, for every policy and height |
| Currency.SubsidyAtHeight | qr_blockchain/currency.py:52-58 | Without a cap the subsidy is the initial one divided by two once for each whole interval below the height, and zero from the sixty-third interval on; with a cap it is cut to what the cap leaves |
| Currency.SubsidyHalves | qr_blockchain/currency.py:24-32 | Without a cap the subsidy is the initial one below the first interval, halves with every further interval, and is zero from quotient 63 on |
| Currency.SubsidyWithoutHalvings | qr_blockchain/currency.py:24-28 | Without halvings it is constant, and the genesis never has one |
| Currency.CapLeaves | qr_blockchain/currency.py:52-58 | With a cap a height gets the smaller of its uncapped subsidy and the cap less the subsidies of all heights below |
| Currency.SubsidiesSumToCumulative | qr_blockchain/currency.py:52-64 | Prefix sums of the subsidy equal the cumulative subsidy and never exceed a positive emission cap |
| Currency.TotalEmissionBounded | qr_blockchain/currency.py:24-50 | With positive interval and initial subsidy the uncapped total stays below 2 * initial * interval at every height |
| Bech32.ChecksumIff | qr_chain_classical_migration_backend_secp256k1.py:80-98 | For any values, six symbols bring the register to a target residue if and only if they are the checksum computed for it |
| Bech32.ChecksumMakesOne | qr_chain_classical_migration_backend_secp256k1.py:95-98 | The encoder's six symbols are five-bit and make the validator's polymod equal 1 |
| Bech32.KnownChecksum | qr_chain_classical_migration_backend_secp256k1.py:80-98 | The checksum of the empty data under the prefix a is that of the first valid test vector of BIP 173, which pins the generators |
| Bech32.KnownVariant | qr_blockchain/legacy_networks.py:132 | The checksum of the empty data under the prefix a for the later residue is that of the first valid test vector of BIP 350 |
| Bech32.ExpandCovers | qr_chain_classical_migration_backend_secp256k1.py:91-92 | The checksum covers each prefix character twice, by high and low bits that joined give it back, parted by a zero |
| Bech32.KnownAddresses | qr_chain_classical_migration_backend_secp256k1.py:101-103 | The symbol table of BIP 173; the backend writes a12uel5l for empty data under the prefix a, and the address check accepts it and a1lqfn3a |
| Bech32.EncodedIsAccepted | qr_blockchain/legacy_networks.py:117-133 | Whatever the backend writes under a lower-case prefix, the address check of the other module accepts |
| Bech32.AcceptedEndings | qr_blockchain/legacy_networks.py:117-133 | Under a lower-case prefix the check accepts exactly two six-symbol endings, the checksums of its two residues |
| Bech32.RunPolymod | qr_chain_classical_migration_backend_secp256k1.py:80-88 | The register loop computes the polymod of which linearity is proved |
| Bech32.ConvertBits | qr_chain_classical_migration_backend_secp256k1.py:106-119 | Regrouping denotes the same number followed by fewer zero bits than one group, in groups of the right size |
| Base58.DecodeInvertsEncode | qr_blockchain/legacy_networks.py:83-98 | Decoding an encoded payload returns it, leading zero bytes included, if and only if the payload is nonempty and payload plus checksum is not all zero |
| Base58.EncodeInvertsDecode | qr_chain_classical_migration_backend_secp256k1.py:69-77 | Any accepted text with a character other than 1 is the one the writer makes for its payload |
| Base58.ZerosGrow | qr_chain_classical_migration_backend_secp256k1.py:76-77 | All-zero bytes come back with one more zero |
| Base58.Base58CheckEncode | qr_chain_classical_migration_backend_secp256k1.py:69-77 | The division loop computes the encoding of payload and checksum |
| Base58.Base58CheckDecode | qr_blockchain/legacy_networks.py:83-98 | The accumulating loop computes the decoding and its refusals |
| Base58.AcceptedIff | qr_blockchain/legacy_networks.py:90-98 | A text is accepted for a nonempty body if and only if it decodes to the body followed by the first four bytes of its digest |
| Base58.MinimalBytes | qr_blockchain/legacy_networks.py:90 | The byte length taken from the bit length is that of the numeral without leading zeros |
| Base58.AlphabetIs | qr_chain_classical_migration_backend_secp256k1.py:13 | The alphabet is the ASCII letters and digits without 0, O, I and l in ascending order |
| Base58.KnownEncoding | qr_chain_classical_migration_backend_secp256k1.py:69-77 | Two zero bytes and 255 are written 115Q |
| Snapshot.HashIgnoresOrder | qr_blockchain/snapshot.py:85-119 | The manifest hash of a bundle with distinct addresses does not depend on the order of its entries |
| Snapshot.ManifestBinds | qr_blockchain/snapshot.py:110-119 | Equal manifest hashes mean the same header and the same entries up to the default source address, or a collision of the two manifests, of a pair at one place of the two trees, or of two entries at one place |
| Snapshot.RootBinds | qr_blockchain/snapshot.py:93-108 | Leaf lists of equal length with one root are equal, or a pair at one place of their two trees collides, despite odd-level duplication |
| Snapshot.DuplicationSharesRoot | qr_blockchain/snapshot.py:101-107 | Without the count duplication does not bind: three leaves and the same with the last repeated share a root |
| Snapshot.PayloadDetermines | qr_blockchain/snapshot.py:47-62 | Two entries commit to the same dictionary if and only if they agree up to the default source address |
| Snapshot.ValidateBundle | qr_blockchain/snapshot.py:172-198 | Accepts exactly the valid bundles and returns their normal form with its manifest hash |
| Snapshot.ValidBundleMeans | qr_blockchain/snapshot.py:172-193 | In a valid bundle addresses are distinct and each entry has an address, a provider, a positive amount and a known status, with a reason unless it is active; the total is at least the number of entries |
| Snapshot.SingleEntryIff | qr_blockchain/snapshot.py:178-193 | Under a valid header a bundle of one entry is valid if and only if the entry is complete in that sense |
| Snapshot.SumConcat | qr_blockchain/snapshot.py:110-119 | The manifest's total adds up however the entries are split |
| Snapshot.SmallRoots | qr_blockchain/snapshot.py:93-108 | One leaf is its own root, two leaves are hashed with a colon between them, and the third of three is paired with itself |
| Snapshot.FinalizedIsStable | qr_blockchain/snapshot.py:121-128 | A finalized bundle validates again, to itself |
| Snapshot.ComputeRoot | qr_blockchain/snapshot.py:93-108 | The level loop with padding computes the recursive root |
| ReplayWindow.NoReplay | qr_blockchain/service.py:5660-5671 | No envelope is accepted twice over any run, although nonces are pruned, when the second attempt stores its nonce within the skew |
| ReplayWindow.ReplayFreeIff | qr_blockchain/storage.py:1273-1313 | With two clock readings at most a lag apart no envelope can be accepted twice in any run if and only if the lag is zero |
| ReplayWindow.AcceptedIff | qr_blockchain/service.py:5660-5671 | In any run a request is accepted if and only if it is genuine, its timestamp is within the skew, its nonce was not accepted within the retention time and fewer than 4096 nonces of its identity were |
| ReplayWindow.TableIsHistory | qr_blockchain/storage.py:1273-1313 | Within the retention time the nonce table holds exactly the nonces of the accepted requests |
| ReplayWindow.LagAllowsReplay | qr_blockchain/auth.py:161-164 | A concrete run that accepts one envelope twice for any positive lag |
| ReplayWindow.NeverOverCapacity | qr_blockchain/storage.py:1302-1309 | No identity ever holds more than 4096 nonces |
| ReplayWindow.NonceTable.MarkPeerNonce | qr_blockchain/storage.py:1273-1313 | Pruning is kept even when the nonce is refused as repeated or over capacity; otherwise the nonce is added |
| CoinSelection.SelectInputs | qr_blockchain/service.py:5195-5211 | Succeeds if and only if the spendable outputs suffice, returns distinct spendable outputs worth the stated total, and for a nonempty address list no sufficient choice has fewer inputs |
| CoinSelection.LargestCarryMost | qr_blockchain/storage.py:884-897 | The largest n outputs carry at least as much as any other n |
| CoinSelection.ListUtxos | qr_blockchain/storage.py:884-904 | The listing holds exactly the matching outputs, ascending by amount for an address list; an empty list filters nothing |
| CoinSelection.CreateTransaction | qr_blockchain/signer.py:206-233 | Inputs are distinct outputs of the listed addresses and equal outputs plus fee, the recipient is paid, and the transaction passes the chain's rules at the next height once its inputs are signed |
| CoinSelection.SpendableIsMatured | qr_blockchain/service.py:5245-5283 | The spendability report and the spending rule of validation agree |

## Left out

- HTTP, the command line, peer fetching, gossip, rate limits, TLS and the report builders: input and output without invariants.
- SQLite: each table is a map, each transaction one atomic step.
- SHA-256, Keccak, secp256k1, RSA, key protection and native backends: parameters or absent.
- Proof-of-work mining: proof of work is a predicate on the hash.
- Shape checks of JSON objects (field sets, boolean versus integer, malformed rows, float tokens): the data types rule them out; `CanonicalJson.Other` stands for every value without a canonical form.
- The mempool (`pending_transactions`), its policy and block assembly.
- The order in which the state root lists outputs: the root is a function of the state.
- Parallel and native signature verification and the provider allowlist: whether the signatures of a transfer verify under an allowed provider is a parameter, after the checks for repeated and unknown inputs.
- Importing migration snapshots and cascading their status: on the sources they act like runs of `SeedSource` and `SetSource` actions of `Disputes`.
- The ownership checks of a migration claim (`_validate_migration_claim`): one parameter says whether the source and its policy admit the claim; its structural rules are modelled.
- Synchronisation of version 0.1 nodes across forks, unique transaction IDs on version 0.1 branches and cap checks on a genesis without successor: the code does not establish them.
- Wallet rows in the old unprotected format and keys that do not advance on reserve, apart from the rules about blocking and recovery, which hold for any provider.
- Node identity signing (`sign_claims`): it drives the same reserve, complete and fail steps as the wallet signer.
- Signers without a state database.
- CanonicalJson.Parse: the reader covers the printed grammar only, not all of `json.loads`; `ReaderDoesNotMatter` says why that is enough.
- ReplayWindow.NonceTable.AuthenticateRequest: requests are handled one after the other; interleaving inside one request is not modelled, and every check without clock or table is one flag.
- CoinSelection.CreateTransaction: signing the inputs is a parameter; `Signer.LocalSigner.SignForAddress` models it for one key.
- Signer.LocalSigner.SignForAddress: nobody else acts between its reserve and its completion; `FinishSigning` and `SigningIsHonest` cover that case.
- NodeV1.ChainNode.ImportBlock: a block whose hash is all zeros, the mark of the root, must not be offered.
- NodeV2.ConsensusNode.SyncFrom: writes succeed while it runs; `AcceptBlock` models a failing one.
- NodeV1.ChainNode.ValidateBlock: the reason of a refusal is not modelled.
- Bech32.EncodeAddress: no prefix with upper-case letters is covered, since the written text would mix case.
