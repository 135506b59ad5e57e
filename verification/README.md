# Verification of the SEQ chain

This project models the Arcadia-enabled SEQ chain in Dafny and proves how it behaves. Run
`dafny verify dfyconfig.toml` in this directory to check everything.

## What is modelled

- **The action state machine.** `ChainState.dfy` has the key/value state, the permissions on keys
  and the mutable view that enforces them. `Balances.dfy` and `Actions.dfy` say what each operation
  does to the state as a function; `ActionMethods.dfy` has the `Execute` methods step by step, each
  proved to end in that state, with that error, and (for a registration) with that rewritten info.
- **Transactions, blocks, runs.** `Blocks.dfy` runs transactions under the keys they declare, with
  fee and rollback, and flattens a chain of blocks to the events it committed. All properties of
  runs are proved on those events.
- **Serializability.** `Footprints.dfy` shows which declared permissions are needed; `Schedules.dfy` is the
  argument for any deterministic machine; `Serializability.dfy` applies it to transactions and the
  keys they declare.
- **Rollups, exits, bids, supply.** `Rollups.dfy` (registry invariant, nil-safety, which epochs a
  registration changes, custody), `EpochExits.dfy`, `Participants.dfy` (when the list of an epoch's
  participants is final), `Bids.dfy`, `Supply.dfy` (with genesis and fee deduction), `Accounts.dfy`
  (accounts without a balance). `Reachable.dfy` puts them together for every state reached from
  genesis.
- **The rollup cache.** `RollupCache.dfy` and `Node.dfy`: the in-memory registry that keeps pointers
  into accepted actions, the loop of `Accepted` that feeds it, and its agreement with the chain.
- **Byte level and services.** `KeyPool.dfy` (recycled key buffers), `Wire.dfy` (packed records),
  `Words.dfy` and `Uint256.dfy` (big-endian integers), `Transcripts.dfy` (commitment transcripts),
  `Batches.dfy` (signature batches), `Archiver.dfy` (block header queries).

## What is taken from elsewhere

hypersdk, avalanchego, BLS, SHA-256, Keccak and the SQL engine are not part of this model. What is
used of them is written down as definitions: a failed action is rolled back while its fee is kept;
read, write and allocate permissions mean what they say; typed records decode to what was encoded
and keys of different kinds differ; an address is a type byte and a 32-byte id; a rollup's id is an
injective function of its namespace; `ValidAtEpoch(e)` is `StartEpoch <= e` and no exit or `e <
ExitEpoch`, `Exited(c)` is an exit not after c; a `required` read refuses zero. Signature checks,
hashes, record size limits and the namespace length limit are parameters; apart from statements that
an action succeeds, no theorem depends on what they answer. A table is a list of rows in insertion
order with unique heights and ids; `First` breaks ties by insertion.

## Where the code and its documentation differ

- `arcadia.md:8-14` says the list of participants of epoch K, the rollups that opted out neither
  entirely nor for that epoch, is final with the end of epoch K-2. The code breaks this with a
  CREATE on a registered namespace, with an EXIT over an earlier exit, and with an epoch exit
  created or deleted late, since `EpochExit.Execute` ignores the height.
  `Participants.FrozenIffKeepsLists` gives the exact condition, four lemmas give runs from genesis,
  and `Participants.ParticipantsFinal` says when the list is final all the same.
- `arcadia.md:13-15` describes one winning bid sent after the fourth block. The code accepts,
  during the whole epoch, any bid that a whitelisted actor sends, its builder's key has signed and
  its builder's balance covers, and keeps the last one whatever its price: `Bids.AcceptedIff`,
  `Bids.PriceFallsIff` and, for a concrete run, `Bids.LowerBidReplaces`.
- `storage/balance.go:148-151` deletes a record that reaches zero, so that an account without balance
  does not exist (line 25). A bid of price zero still puts the fund on record with nothing:
  `Accounts.EventLeaves` and `Accounts.ZeroBidOpensFund`.
- UPDATE, EXIT and the deletion of an epoch exit declare a permission to allocate that they never
  need: `Footprints.RewriteNeedsNoAllocate` and `Footprints.DeleteNeedsNoAllocate`.
- With equal timestamps, the archiver's query by start time can miss a block; the exact condition is
  `Archiver.AfterTimestampComplete`.

## Model

| member | source | states |
|---|---|---|
| Balances.GetBalance | storage/balance.go:36-70 | The balance of an absent account is 0, and the caller learns whether a record exists; reading needs the read permission |
| Balances.SetBalance | storage/balance.go:72-89 | The record of the account becomes the given balance, within the permissions of the view |
| Balances.AddBalance | storage/balance.go:99-126 | Adds with overflow check; an absent account is created only when asked; the outcome and new state are those of the specification, failures included |
| Balances.SubBalance | storage/balance.go:128-154 | Subtracts with underflow check and deletes the record that reaches zero; outcome and new state are those of the specification |
| Balances.AddOutcome | storage/balance.go:106-125 | With every permission: the sum goes on record unless it overflows 64 bits, and an account without a record is created only when asked; nothing else changes |
| Balances.SubOutcome | storage/balance.go:134-153 | With every permission: the difference goes on record unless it is negative, and no record is left of a balance of zero; nothing else changes |
| Accounts.EventLeaves | storage/balance.go:147-153 | If every account on record has a balance, this still holds after a committed event if and only if the event is not a bid of price zero while the fund has no record |
| Accounts.ChainLeaves | storage/balance.go:147-153 | Over blocks in which every accepted bid offers something, no account without a balance is ever on record |
| Accounts.ZeroBidOpensFund | actions/auction.go:117-124 | A bid of price zero that leaves the fund on record with nothing, on an empty chain |
| ChainState.Epoch | actions/utils.go:69-71 | For every 64-bit height h the epoch e is the one with e*L <= h < (e+1)*L |
| ActionMethods.Contains | actions/utils.go:32-39 | The scan finds a namespace exactly when it is in the list |
| ActionMethods.IsWhiteListed | actions/utils.go:15-29 | The scan finds an address exactly when it is whitelisted |
| ActionMethods.GetRollupRegistry | storage/rollup_registry.go:16-55 | An absent registry reads as empty |
| ActionMethods.GetRollupInfo | storage/rollup_info.go:19-57 | An absent info comes back as no info and no error |
| ActionMethods.AuthorizationChecks | actions/utils.go:51-66 | No error exactly for the stored authority of a registered namespace; a missing info shows as the nil dereference it would be |
| ActionMethods.TransferAction.Execute | actions/transfer.go:45-68 | Ends in the state and with the error of the specification, also when it fails after the first write |
| ActionMethods.AuctionAction.Execute | actions/auction.go:77-137 | Checks in the order of the source, then payment and bid record; same state and error as the specification |
| ActionMethods.RollupRegistration.Execute | actions/rollup_register.go:49-135 | Same state, error and in-place rewritten info as the specification, for CREATE, UPDATE, EXIT and unknown op codes |
| ActionMethods.EpochExitAction.Execute | actions/epoch_exit.go:49-129 | Same state and error as the specification, for create, delete and unknown op codes |
| ActionMethods.FindExit | actions/epoch_exit.go:106-115 | The search stops at the first exit of the namespace, or answers -1 |
| Actions.AuctionMessageInjective | actions/auction.go:29-35 | The message a bidder signs determines epoch, price and builder address |
| Actions.DigestPreimage | actions/auction.go:29-35 | What is hashed is the one string of 49 bytes whose first 8 read as the epoch, the next 8 as the price, and the rest as the builder's address |
| Actions.DigestBinding | actions/auction.go:29-35 | Two different bids with the same digest exhibit a collision of the hash |
| Actions.FundAddressBytes | actions/utils.go:41-47 | The fund's address is 32 zero bytes and a final 1 |
| Blocks.DeclaredKeysSuffice | actions/transfer.go:34-39 | For every action: granted what its StateKeys declare, Execute behaves as with every permission, so the declaration leaves nothing out |
| Blocks.TransferKeysSuffice | actions/transfer.go:34-68 | The same for a transfer, to itself included |
| Blocks.AuctionKeysSuffice | actions/auction.go:64-137 | The same for a bid, whose record key carries no read permission |
| Blocks.RegisterKeysSuffice | actions/rollup_register.go:36-135 | The same for a registration, including the info it rewrites |
| Blocks.ExitKeysSuffice | actions/epoch_exit.go:36-129 | The same for an epoch exit, with read permission only on info and registry |
| Blocks.SponsorKeysSuffice | controller/state_manager.go:36-65 | The same for the fee and the sponsor's key |
| Blocks.ConfinementIsInvisible | controller/state_manager.go:36-65 | A whole transaction confined to its declared keys gets the verdict and state it would get unconfined |
| Blocks.TxKeysAreDeclared | controller/state_manager.go:36-40 | A transaction declares a permission exactly when one of its actions does or it is for reading or writing the sponsor's balance |
| Blocks.TxOutcome | controller/state_manager.go:42-65 | A transaction is invalid and without effect exactly when the fee is not covered, successful exactly when all its actions succeed in order, and otherwise failed with the first error and only the fee taken |
| Blocks.MessagesOnlyPay | actions/msg.go:38-48 | A transaction of rollup messages declares its sponsor's key only, succeeds exactly when its fee is covered, and does nothing but pay it |
| Footprints.TransferKeysNeeded | actions/transfer.go:34-39 | A view that lacks any permission a valid transfer declares makes it fail in some state where it would succeed |
| Footprints.AuctionKeysNeeded | actions/auction.go:64-70 | The same for a bid that passes its checks |
| Footprints.CreateKeysNeeded | actions/rollup_register.go:36-41 | The same for a CREATE that is in time |
| Footprints.ExitKeysNeeded | actions/epoch_exit.go:36-42 | The same for creating an epoch exit |
| Footprints.SponsorKeysNeeded | controller/state_manager.go:36-40 | The same for a fee and its sponsor's key |
| Footprints.RewriteNeedsNoAllocate | actions/rollup_register.go:91-131 | UPDATE and EXIT behave as with every permission even without that to allocate |
| Footprints.RewriteKeysNeeded | actions/rollup_register.go:36-41 | They need everything else they declare |
| Footprints.DeleteNeedsNoAllocate | actions/epoch_exit.go:105-124 | Deleting an epoch exit does not need the permission to allocate either |
| Footprints.DeleteKeysNeeded | actions/epoch_exit.go:36-42 | It needs everything else it declares |
| Serializability.ActionLockstep | actions/transfer.go:34-68 | What an action does inside its declared keys, its verdict included, depends only on the records at those keys |
| Serializability.RegisterLockstep | actions/rollup_register.go:36-135 | The same for a registration |
| Serializability.AuctionLockstep | actions/auction.go:64-137 | The same for a bid |
| Serializability.EpochExitLockstep | actions/epoch_exit.go:36-129 | The same for an epoch exit |
| Serializability.ActionFrame | actions/transfer.go:34-68 | An action changes no key that it does not declare for writing |
| Serializability.TxConfined | controller/state_manager.go:36-40 | A transaction changes no key that it does not declare for writing |
| Serializability.TxLockstep | controller/state_manager.go:36-40 | A transaction's verdict and its effect on its declared keys depend only on those keys |
| Serializability.NonConflictingCommute | actions/transfer.go:34-39 | Transactions that share no key one of them may write give the same verdicts and state in either order |
| Serializability.TransfersConflictIff | actions/transfer.go:34-39 | Two transfers conflict if and only if they share an account |
| Serializability.ExitsConflictIff | actions/epoch_exit.go:36-42 | Two epoch exits conflict if and only if they have the same signer or are for the same epoch: reading the same rollup is no conflict |
| Serializability.Serializable | actions/transfer.go:34-39 | Every schedule of a block that keeps transactions with conflicting declared keys in order ends in the same state with the same verdicts |
| Rollups.RegisterEffect | actions/rollup_register.go:71-134 | A successful registration writes one info, of its own namespace, and leaves or extends the registry by that namespace |
| Rollups.CreateAccepted | actions/rollup_register.go:71-90 | CREATE is accepted if and only if the names agree and fit, the signer is the authority of a namespace already registered, the start is two epochs ahead or later, there is no exit, and the records fit; the info is stored as it is |
| Rollups.UpdateAccepted | actions/rollup_register.go:91-108 | UPDATE is accepted if and only if the signer is the authority of the registered namespace and the records fit; recipient, authority and key are those of the action, both epochs those stored |
| Rollups.ExitAccepted | actions/rollup_register.go:109-126 | EXIT is accepted if and only if, in addition, the exit is two epochs ahead or later and not before the stored start; all but the start is stored as the action has it |
| Rollups.RegistrationRefused | actions/rollup_register.go:54-132 | Which error a refused registration gives, for every input |
| Rollups.EventKeepsInvariant | actions/rollup_register.go:58-132 | Every committed event keeps the registry free of repetitions and equal to the set of stored infos, each well formed, and only appends to it |
| Rollups.ChainKeepsInvariant | actions/rollup_register.go:58-132 | The same over any chain of blocks: infos carry their namespace, start epochs are at least 2, exits are 0 or not before the start, registries only grow |
| Rollups.NilSafe | actions/utils.go:51-66 | In no reachable state does a transaction dereference a missing rollup info |
| Rollups.ActionNilSafe | actions/epoch_exit.go:62-80 | The same for one action on a state with the invariant, epoch exits included |
| Rollups.InfoStays | rpc/jsonrpc_server.go:410-431 | A namespace once registered has an info in every later state |
| Rollups.GetAllRollupInfo | rpc/jsonrpc_server.go:410-431 | Reading the registry in one state and infos in later ones never misses an info, and the reply groups them by start epoch, in registry order, without empty groups |
| Rollups.StartingAtConcat | rpc/jsonrpc_server.go:410-431 | A group of infos with the same start keeps them all, in registry order |
| Rollups.FrozenIffKeepsSchedule | actions/rollup_register.go:71-126 | A registration in epoch c leaves the rollups registered for each epoch up to c+1 unchanged if and only if a guard on op code and stored epochs holds beforehand |
| Participants.FrozenIffKeepsLists | actions/epoch_exit.go:49-124 | Any action committed in epoch c leaves the participant lists of all epochs up to c+1, exits from single epochs included, unchanged if and only if a check of the state before it holds |
| Participants.FrozenIffExitInTime | actions/epoch_exit.go:49-124 | The case of an epoch exit, created or deleted: exactly when it is for epoch c+2 or later, or for an epoch its rollup is not registered for |
| Participants.FrozenIffNotDisturbed | actions/rollup_register.go:71-126 | The case of a registration: exactly when the rollup is out of each frozen epoch at which the stored epochs change |
| Participants.ParticipantsFinal | arcadia.md:8-14 | Once epoch K-2 is over, blocks whose actions all pass that check leave the participant list of epoch K, without the rollups that opted out of it, unchanged |
| Participants.ListCustody | arcadia.md:8-12 | Over any chain, a rollup whose authority signs neither a registration nor an epoch exit for it stays on or off every list |
| Participants.ReRegistrationBreaksTheFreeze | actions/rollup_register.go:72-90 | A run from genesis, for any operator and namespace: a CREATE in epoch 3 takes a running rollup off the list of epoch 4, against the promise of the documentation |
| Participants.LateExitBreaksTheFreeze | actions/rollup_register.go:109-126 | A run from genesis in which an EXIT in epoch 3 brings a leaving rollup back on the list of epoch 4 |
| Participants.EpochExitBreaksTheFreeze | actions/epoch_exit.go:88-104 | A run from genesis in which an epoch exit in epoch 3 takes a rollup off the list of epoch 4 |
| Participants.ReturnBreaksTheFreeze | actions/epoch_exit.go:105-124 | A run from genesis in which deleting an epoch exit in epoch 3 puts a rollup back on the list of epoch 4 |
| Rollups.ScheduleAfter | actions/rollup_register.go:71-126 | After a CREATE the namespace is registered for its start epoch on, after an EXIT from the stored start to the new exit, after an UPDATE as before |
| Rollups.ReexecutionUnaffected | actions/rollup_register.go:102-126 | An action already rewritten in place by an execution in another state does what the original would |
| Rollups.OnlyAuthorityChanges | actions/rollup_register.go:72-125 | Whatever changes a stored info was signed by the authority stored just before |
| Rollups.Custody | actions/utils.go:51-66 | Over any chain, a rollup whose authority signs no registration of it keeps its info, authority included |
| EpochExits.CreateInserts | actions/epoch_exit.go:58-104 | Create succeeds exactly when the epochs agree, the signer is the stored authority of a registered rollup that is not out, and the longer list fits; it appends the entry, adds it to the set, and leaves other epochs alone |
| EpochExits.DeleteRemoves | actions/epoch_exit.go:58-124 | Delete succeeds exactly when the epochs agree, the signer is the stored authority of a registered rollup that is out, and the shorter list fits; it removes that entry with the others in order, and leaves other epochs alone |
| EpochExits.ExitRefused | actions/epoch_exit.go:58-127 | Which error a refused epoch exit gives, for every input, and that nothing changes then |
| EpochExits.OnlyAuthorityExits | actions/epoch_exit.go:78-80 | An event that moves a rollup in or out of the exits of an epoch is an epoch exit signed by its stored authority |
| EpochExits.ExitCustody | actions/epoch_exit.go:78-80 | Over any chain, a rollup whose authority signs nothing for it is out of the same epochs as before |
| EpochExits.CreateThenDelete | actions/epoch_exit.go:88-124 | Create then delete gives back every list |
| EpochExits.DeleteThenCreate | actions/epoch_exit.go:88-124 | Delete then create moves the entry to the end |
| EpochExits.EventKeepsExits | actions/epoch_exit.go:58-127 | Every committed event keeps each list distinct, tagged with its epoch and made of registered namespaces |
| EpochExits.ChainKeepsExits | actions/epoch_exit.go:58-127 | The same over any chain of blocks |
| Bids.AcceptedIff | actions/auction.go:77-134 | A bid for epoch E is accepted if and only if it comes at a height in [(E-1)L, EL) from a whitelisted actor, carries a signature by its builder's key of the hash of the 49 bytes of epoch, price and address, is covered by the builder's balance, and its record fits |
| Bids.BidRefused | actions/auction.go:77-134 | Which error a refused bid gives, for every input |
| Bids.AcceptedBid | actions/auction.go:92-134 | An accepted bid, in that window and signed by its builder, is what the record of its epoch then holds |
| Bids.PriceFallsIff | actions/auction.go:117-134 | The recorded price of an epoch falls exactly when a bid below it is accepted |
| Bids.LowerBidReplaces | actions/auction.go:92-134 | A run in which a bid of 100 is accepted in the first block of the bidding epoch, replaced by a bid of 1 in the next block, and both are paid for |
| Bids.BidOnRecord | actions/auction.go:92-134 | After any chain the record of an epoch is the last bid accepted for it, and all accepted ones came during the epoch before |
| Bids.BidFixedOutsideWindow | actions/auction.go:92-95 | Blocks outside [(E-1)L, EL) leave the bid of epoch E as it is: absent before, final after |
| Supply.AuctionMoves | actions/auction.go:117-129 | An accepted bid moves its price from the builder to the fund, which are never the same account, and changes no other balance |
| Bids.FundGrows | actions/utils.go:42-47 | While the fund signs nothing, its balance grows by exactly the accepted bids and the transfers to it |
| Supply.TransferMoves | actions/transfer.go:54-67 | A transfer succeeds exactly when its value is not zero, its memo within 256 bytes and its value covered, and then moves the value, to itself included; otherwise nothing changes and the error names the first of these that fails |
| Supply.EventTotal | storage/balance.go:99-154 | A committed event takes its fee out of the sum of balances and nothing else |
| Supply.SupplyConserved | controller/state_manager.go:58-65 | Over any chain, balances plus fees paid add up to the balances at the start |
| Supply.NoOverflow | actions/transfer.go:54-67 | From a supply within 64 bits no transaction ever fails because a balance would overflow |
| Supply.ActionNeverOverflows | actions/auction.go:121-129 | The same for one action: what was just subtracted can always be added elsewhere |
| Supply.CanDeduct | controller/state_manager.go:42-56 | Permits a fee exactly when the balance covers it |
| Supply.Deduct | controller/state_manager.go:58-65 | Deducting the fee is subtracting it from the sponsor's balance |
| Supply.CanDeductIffDeduct | controller/state_manager.go:42-65 | With the sponsor's declared keys a fee can be deducted exactly when CanDeduct permits it |
| Supply.Load | genesis/genesis.go:122-148 | Fails exactly on a bad branch factor, an unparsable address or a supply beyond 64 bits; otherwise each address has the last balance allocated to it, the sum is at most the supply, and equal to it if and only if no allocation worth something is shadowed |
| Supply.AllocatedConcat | genesis/genesis.go:129-142 | The supply of a list of allocations is the sum of its parts |
| Reachable.LoadGenesis | genesis/genesis.go:122-148 | A loaded genesis holds balances only, within a supply that fits 64 bits |
| Reachable.EveryReachableState | controller/controller.go:197-248 | From genesis: registry and exit invariants, conservation, last-bid records, no nil dereference, no overflow and cache agreement, all in every reachable state |
| RollupCache.RollupRegistry.Update | rollup_registry/registry.go:49-60 | The cache becomes, entry by entry, the last new info or else the old one, without what has exited by the current epoch |
| RollupCache.RollupRegistry.PutAll | rollup_registry/registry.go:53-55 | Later infos replace earlier ones of the same namespace |
| RollupCache.RollupRegistry.DropExited | rollup_registry/registry.go:57-59 | Drops exactly the entries that have exited by the current epoch |
| RollupCache.RollupRegistry.RollupsValidAtEpoch | rollup_registry/registry.go:33-47 | Returns exactly the cached rollups valid at the epoch, each namespace once |
| RollupCache.UpdatedEntry | rollup_registry/registry.go:53-59 | What an updated cache holds under any one id |
| RollupCache.BlockWritten | controller/controller.go:208-246 | For each namespace, the last info collected from a block is the info the block left on chain, because Execute rewrote it in place |
| RollupCache.UpdateAgrees | controller/controller.go:208-246 | Accepting a block keeps the cache equal to the on-chain infos that have not exited by its epoch: pruning loses nothing that still matters |
| RollupCache.CacheAgreement | controller/controller.go:208-246 | The same after any run of blocks of increasing height |
| RollupCache.SiblingExecution | actions/rollup_register.go:102-126 | If a sibling block executes a cached action again, the cache still agrees with the accepted chain exactly when the sibling's state has the epochs the action takes from it |
| RollupCache.ValidInCache | rollup_registry/registry.go:33-47 | An agreeing cache answers about the current and later epochs with exactly the rollups registered for them on chain, and about earlier ones with those not exited since |
| Node.ExecuteActions | actions/rollup_register.go:49-135 | Executing action objects in place gives the specified state, and leaves in the registrations exactly the infos to be collected |
| Node.ExecuteTx | controller/state_manager.go:58-65 | A transaction on action objects gives the specified state and verdict, with rollback of failed actions |
| Node.CollectRollups | controller/controller.go:208-243 | Collects the registration objects of successful transactions, in order |
| Node.SequencerNode.Accepted | controller/controller.go:197-248 | Updates the cache with what the collected pointers hold |
| Node.SequencerNode.AcceptBlock | controller/controller.go:197-248 | After executing and accepting a block of fresh action objects, the pointer cache agrees with the chain and the registry invariant holds |
| Node.SequencerNode.AcceptChain | controller/controller.go:197-248 | The same for a whole run of blocks of increasing height, each with action objects of its own |
| Node.RunFromGenesis | controller/controller.go:197-248 | From genesis, a new node's state is the chain's and its pointer cache agrees with it after any such run |
| Node.SequencerNode.ExecuteCachedAgain | actions/rollup_register.go:102-126 | A cached object executed again by a sibling block changes the cached info to what that execution leaves in it |
| Node.SequencerNode.GetValidRollupsAtEpoch | rpc/jsonrpc_server.go:433-437 | For the current epoch and later ones: exactly the rollups registered for it on chain, once each, with their on-chain infos |
| KeyPool.KeyBytesInjective | storage/balance.go:17-23 | Different addresses have different key bytes |
| KeyPool.KeyLayout | storage/balance.go:17-23 | The key is a zero byte, the address, and the chunk count 1 as two big-endian bytes |
| KeyPool.Pool.BalanceKey | storage/balance.go:17-23 | The key is a function of the address alone, whatever the recycled buffer held, and no other buffer in the pool changes |
| KeyPool.GetBalance | storage/balance.go:26-34 | Reads the stored balance and returns the buffer to the pool, leaving every retained key intact |
| KeyPool.SetBalance | storage/balance.go:72-89 | Stores the word under the account's key; no retained key is ever back in the pool or altered |
| KeyPool.AddBalance | storage/balance.go:99-126 | The same on the byte level for adding, with every retained key intact |
| KeyPool.SubBalance | storage/balance.go:128-154 | The same on the byte level for subtracting, with every retained key intact |
| KeyPool.AddRefines | storage/balance.go:99-126 | Adding on bytes is adding on typed balances, with the same error |
| KeyPool.SubRefines | storage/balance.go:128-154 | Subtracting on bytes is subtracting on typed balances, with the same error |
| Batches.ED25519Batch.constructor | auth/ed25519.go:107-113 | The batch size is at least count/cores and at least the minimum, and is one of the two |
| Batches.ED25519Batch.Add | auth/ed25519.go:128-146 | For any number of Adds: every batchSize-th one hands out the current batch; the batches since replaced are distinct, full and unchanged since hand-out, and with the current one hold everything added in order; beyond the announced total the same batch is handed out again |
| Batches.ED25519Batch.Done | auth/ed25519.go:148-153 | Hands out the current batch, nothing when nothing was added |
| Batches.VerifyAll | auth/ed25519.go:107-153 | After all Adds and Done: as many jobs as full batches and one more, distinct batches that together hold every signature once in order, only the last handed out twice (exactly when sizes divide), none too large |
| Batches.JobBound | auth/ed25519.go:107-113 | The number of jobs, count/batchSize + 1 or 0, never exceeds twice the cores, however the batch size was chosen |
| Transcripts.NoSeparatorInUtf8 | types/commit.go:65-79 | The first separator byte occurs in no valid UTF-8 string |
| Transcripts.EncodedIsValid | types/commit.go:66-69 | What the string check accepts includes every encoding of Unicode scalar values |
| Transcripts.ValidIsEncoded | types/commit.go:66-69 | And nothing else |
| Transcripts.NameEnds | types/commit.go:65-79 | A name with its separator can be told from whatever follows |
| Transcripts.PayloadEnds | types/commit.go:82-165 | Payloads of one kind can be told from what follows and determine their fields, present or absent options included |
| Transcripts.UniquelyDecodable | types/commit.go:65-165 | Equal transcripts of fields whose names fix their kinds come from equal field sequences |
| Transcripts.RawCommitmentBuilder.constructor | types/commit.go:54-58 | A new builder has written its name as a field of width 0 |
| Transcripts.RawCommitmentBuilder.ConstantString | types/commit.go:65-79 | Writes the string and the bytes C0 7F |
| Transcripts.RawCommitmentBuilder.AddCommitment | types/commit.go:82-84 | What has been written is the transcript of the fields so far and this commitment |
| Transcripts.RawCommitmentBuilder.AddOptional | types/commit.go:86-98 | The same for an optional commitment: the word 0, or the word 1 and the commitment |
| Transcripts.RawCommitmentBuilder.AddUint256 | types/commit.go:101-111 | The same for an integer, whose magnitude is written in 32 bytes |
| Transcripts.RawCommitmentBuilder.AddUint64 | types/commit.go:114-123 | The same for a 64-bit integer |
| Transcripts.RawCommitmentBuilder.AddFixedSize | types/commit.go:135-152 | The same for a fixed-size byte string |
| Transcripts.RawCommitmentBuilder.AddVarSize | types/commit.go:155-165 | The same for a byte string with its length |
| Transcripts.RawCommitmentBuilder.Finalize | types/commit.go:167-172 | The commitment is the hash of the transcript of all the fields added |
| Transcripts.SourceNamesUsable | types/types.go:116-152 | The field names in the source are valid UTF-8 and different where kinds differ |
| Transcripts.HeaderLayout | types/types.go:116-123 | The header's transcript byte by byte: each name, C0 7F, and the value of that name |
| Transcripts.RootLayout | types/types.go:148-152 | The root's transcript byte by byte, with the length of the root before it |
| Transcripts.SourceHeaderLayout | types/types.go:116-152 | Both with the names in the source |
| Transcripts.CommitHeader | types/types.go:116-123 | Hashes exactly the header's transcript |
| Transcripts.CommitRoot | types/types.go:148-152 | Hashes exactly the root's transcript |
| Transcripts.HeaderTranscriptInjective | types/types.go:116-123 | A header's transcript determines height, timestamp, L1 head and root commitment |
| Transcripts.RootTranscriptInjective | types/types.go:148-152 | A root's transcript determines the root bytes |
| Transcripts.TranscriptsDisjoint | types/types.go:116-152 | No header transcript is a root transcript |
| Transcripts.HeaderCommitmentBinding | types/types.go:116-123 | Two different headers with one commitment exhibit a collision of the hash |
| Uint256.CommitmentFromUint256 | types/commit.go:16-33 | 32 big-endian bytes of the magnitude, padded on the left; an error exactly when the magnitude needs more |
| Uint256.MinimalBytesLength | types/commit.go:16-33 | The minimal bytes fit in w exactly when the number is below 256^w |
| Uint256.CommitmentRoundTrip | types/commit.go:35-37 | Every commitment comes back from its integer, leading zeros included |
| Uint256.IntegerRoundTrip | types/commit.go:16-37 | An integer comes back from its commitment if and only if it is in [0, 2^256) |
| Archiver.ORMArchiver.InsertBlock | archiver/orm_archiver.go:110-139 | A row is added exactly when its height and id are both new |
| Archiver.CollectConsecutive | archiver/orm_archiver.go:225-237 | The loop succeeds exactly on rows of consecutive heights, with the 64-bit subtraction of the source |
| Archiver.ORMArchiver.GetBlockHeadersByHeight | archiver/orm_archiver.go:201-252 | Computes the specified answer by height |
| Archiver.ORMArchiver.GetBlockHeadersByID | archiver/orm_archiver.go:254-317 | Computes the specified answer by id |
| Archiver.ORMArchiver.GetBlockHeadersAfterTimestamp | archiver/orm_archiver.go:319-379 | Computes the specified answer by start time |
| Archiver.WindowRows | archiver/orm_archiver.go:219-224 | The queried window holds exactly the rows asked for, by strictly increasing height |
| Archiver.FailsIffGap | archiver/orm_archiver.go:225-237 | A query fails if and only if a block is missing between two of those asked for |
| Archiver.AnswerComplete | archiver/orm_archiver.go:219-237 | On any archive a successful answer is consecutive and holds exactly the blocks asked for, each with the id, time and height of its row and the row's L1 head as an unsigned word |
| Archiver.AnswerNeighbours | archiver/orm_archiver.go:204-249 | On any archive Prev is the block just below the height asked for, if that is above 1, and Next the lowest block from the end time on, with all their fields; where there is none, all fields are zero |
| Archiver.OrderIndependent | archiver/orm_archiver.go:201-252 | By height, the answer does not depend on the order in which blocks were archived |
| Archiver.WindowFromArchivedHeight | archiver/orm_archiver.go:201-252 | On a gap-free archive with non-decreasing times, asking from an archived height never fails and returns the contiguous blocks up to the end time |
| Archiver.Neighbours | archiver/orm_archiver.go:204-250 | When that answer is not empty, Next is the block after it where archived, and Prev the block before it where archived, except that a first block of height 1 never gets block 0 as Prev |
| Archiver.ByIDIsByHeight | archiver/orm_archiver.go:254-317 | For an archived block the query by id equals the query by its height |
| Archiver.ByUnknownID | archiver/orm_archiver.go:254-266 | Without an id the query fails; an id that is not archived asks from height 0 |
| Archiver.AfterTimestampStart | archiver/orm_archiver.go:322-329 | On any archive the query by start time asks from the height of the earliest block from that time on, and of several such from the one archived first |
| Archiver.AfterTimestampAnswer | archiver/orm_archiver.go:319-379 | The query by start time fails exactly when nothing is that late, and all it returns lies between the two times |
| Archiver.AfterTimestampComplete | archiver/orm_archiver.go:319-379 | It misses no block between the two times if and only if it starts at the lowest block of its timestamp |
| Archiver.StrictTimesStartLowest | archiver/orm_archiver.go:322-328 | With strictly increasing times it always does |
| Archiver.TiedTimesMissABlock | archiver/orm_archiver.go:322-328 | A concrete archive with two blocks of one time for which it misses a block |
| Wire.PackEpochs | storage/utils.go:17-25 | Count and epochs in big-endian, or an error exactly when they exceed the size limit |
| Wire.UnpackEpochs | storage/utils.go:26-36 | Reads the announced number of epochs; a zero or a missing one is an error |
| Wire.EpochsRoundTrip | storage/utils.go:17-36 | Packed epochs come back if and only if none is zero |
| Wire.ReadBack | storage/utils.go:26-36 | Packed epochs are read back whatever comes after them, which is left |
| Wire.EpochsRead | storage/utils.go:26-36 | Whatever the bytes, epochs read from them are the words they hold there, none of them zero |
| Wire.MarshalTransfer | actions/transfer.go:78-82 | Writes exactly the transfer's bytes, or fails exactly when Size exceeds the packer's limit |
| Wire.TransferRoundTrip | actions/transfer.go:74-90 | Size is the encoded length, and a transfer comes back if and only if its value is not zero and its memo within 256 bytes |
| Wire.TransferLayout | actions/transfer.go:78-82 | 33 bytes of address, 8 that read as the value, 4 that read as the memo's length, and the memo |
| Wire.TransferRead | actions/transfer.go:84-90 | Whatever the bytes, a transfer read from them is the one they begin with, its value not zero and its memo within 256 bytes |
| Wire.StoreTransaction | storage/transaction.go:22-42 | Fills the record in place: time, success byte, units, fee |
| Wire.TransactionRoundTrip | storage/transaction.go:22-68 | What is read is what was stored, negative times included |
| Wire.StoredAgain | storage/transaction.go:44-68 | Any record read and stored again keeps its bytes, but for a success byte that was neither 0 nor 1 |
| Wire.StoreBid | storage/arcadia.go:16-29 | Fills the 152-byte record in place, every byte of it given for keys and signatures of any length |
| Wire.BidRoundTrip | storage/arcadia.go:16-56 | A bid comes back if and only if its key has 48 bytes and its signature 96; the price always does |

## Left out

- Heights in runs: blocks have all 64-bit heights but the two largest, where with epoch length 1 an epoch plus two wraps around. Single actions are modelled at every height, with the wrap-around.
- Transcripts.RawCommitmentBuilder.ConstantString: the panic on a string that is not UTF-8 is a precondition.
- Transcripts.RawCommitmentBuilder.AddUint256: the panic of `FillBytes` on a magnitude beyond 32 bytes is a precondition.
- Archiver.ORMArchiver.GetBlockHeadersByID: an unknown id answers as height 0, as the code does; nothing more is claimed about it.
- Archiver.ORMArchiver.GetBlockHeadersByHeight: the three queries repeat the same text after finding their first height; here they share one method. SQL errors other than a missing row are not modelled.
- Balances.GetBalance: database errors other than a missing record are not modelled.
- KeyPool.Pool.BalanceKey: concurrent use of the pool is not modelled.
- RollupCache.RollupRegistry.Update: the read-write lock is not modelled; each call is one step.
- Node.SequencerNode.Accepted: the metadata batch, the archiver goroutine and the metrics are not modelled.
- Wire.UnpackEpochs: the initial allocation for a huge announced count is not modelled.
- Blocks: fees are given with the transaction; the fee market, unit prices and refunds are not modelled.
- Schedules within a transaction: actions run in order; only whole transactions are reordered.
- `Size` of `Auction` and `RollupRegistration`, which differ from the encoded lengths.
- `PrefixBlockKey`, `DelRollupInfo` and `DeleteBalance`, which no modelled step uses.
- `GetCommitmentBlocks`, `GetBlockByID` and `GetBlockByHeight`, which decode blocks outside this model.
- JSON, bech32, configuration, logging, JSON-RPC plumbing, the command line tools and the scripts.
- The generated Ethereum bindings in sequencer/sequencer.go.
