# Verified models of the EVM chain's mempool, index, codec, schema and fee logic

This project models the parts of the chain software that are easiest to get subtly wrong and proves
what they are relied on for. `dafny verify dfyconfig.toml` checks the whole project.

- **Transaction order** (`PriceHeap`, `GreedyOrder`, `TxOrdering`, `UnifiedIterator`, `NonceCheck`,
  `ShownExecution`): the price heap over account heads, the merge of EVM and Cosmos transactions,
  `SelectBy`, and the nonce check that the selected transactions then meet in the ante handler.
- **Transaction pool** (`ResetLoop`, `ResetTrace`, `Dispatch`, `Admission`): the head-reset event loop as a
  transition system over all interleavings, `TxPool.Add`, and stateful admission over runs.
- **Indexer** (`Ints`, `Varint`, `TxResultCodec`, `TxResultReader`, `WireFormat`, `UnknownFields`, `LexOrder`,
  `IndexKeys`, `KvIndexer`, `IndexAgreement`, `BlockMessages`, `IndexRuns`, `IndexDrivers`): the wire codec of `TxResult`, the key
  layout, `IndexBlock`, lookups, and the three drivers that fill the index.
- **EIP-712** (`Text`, `Flatten`, `Sanitize`, `Schema`, `StructCount`, `TypeMaps`, `CreateTypes`):
  flattening of a payload's messages and synthesis of its type map.
- **Fees and limits** (`Decimals`, `BaseFee`, `FeeChecker`, `Authz`): the base fee against EIP-1559, the
  dynamic fee of Cosmos transactions, and the authz limiter.

Code that updates objects or buffers is modelled by classes, arrays and loops whose contracts tie them
to functions; the theorems are about those functions.

## Where the code differs from what one might expect

- `EVMMempoolIterator.Tx` and `Next` disagree exactly on EVM transactions that cannot be converted: a
  Cosmos transaction is shown in their place and then shown again (`ShownIsTakenExactlyWhen`,
  `CosmosShownTwice`), and later transactions of the same account then meet a nonce gap
  (`SelectedExecutes`, `ShownMeetsGap`).
- Contrary to the comment on `shouldUseEVM`, a Cosmos transaction without a bond-denomination fee, or
  without gas, makes the tip computation panic instead of giving way (`TipPanicsExactlyWhen`).
- A second `Sync` accepted while another is pending replaces its waiter, which is then never answered
  (`AnsweredExactlyWhen`, `SecondSyncSupersedes`).
- A record whose fields are all zero is stored as an empty value and looked up as missing
  (`MarshalledEmptyExactlyWhen`, `LookupByHash`). Only height 0 allows this.
- Negative heights sort after all others (`NegativeBlocksSortLast`).
- The index service goes on after a failed `IndexBlock`, which leaves a hole exactly when the failed
  block has entries and lies between indexed ones (`ServiceHolesExactlyWhen`, `ServiceLeavesHole`), and
  never resumes after a fetch error (`ServiceTurn`).
- On an empty index the backward command starts below the store's height, so that block itself is left
  out (`IndexBackward`).
- The base fee below target is one less than EIP-1559 specifies unless the decrease is a whole number
  (`BaseFeeMeetsEip1559`), and a zero gas target with gas used sets it to zero, below any minimum
  (`StepKeepsFloor`, `ZeroTargetDrop`).
- The authz cap on nesting also counts sibling `MsgExec`s, so six of them side by side are refused
  (`SiblingsBounded`).

## Model

| member | source | states |
|---|---|---|
| PriceHeap.NewTxWithMinerFee | mempool/miner/ordering.go:40-56 | a head exists exactly when the fee cap covers the base fee; its fee is the tip capped by what the base fee leaves |
| PriceHeap.Down | mempool/miner/ordering.go:62-85 | sifting down restores the heap order above a single violation and keeps the heads as a multiset |
| PriceHeap.Init | mempool/miner/ordering.go:119 | any array of heads becomes a heap with the same heads |
| PriceHeap.PopTop | mempool/miner/ordering.go:72-85 | the rest is a heap and exactly the former top is gone |
| PriceHeap.HeapTop | mempool/miner/ordering.go:63-71 | nothing in a heap has a higher tip than its top, or the same tip and an earlier arrival |
| GreedyOrder.EligiblePrefix | mempool/miner/ordering.go:110-118 | the longest prefix of an account list that can pay the base fee |
| GreedyOrder.GreedyRunKeepsLists | mempool/miner/ordering.go:139-149 | in every greedy run, what an account emitted followed by what it has left is its list: nothing lost, repeated or reordered |
| GreedyOrder.DrainEmitsEveryList | mempool/miner/ordering.go:87-149 | a run that empties the queues emits every account's whole list in nonce order |
| GreedyOrder.GreedyRunLength | mempool/miner/ordering.go:139-149 | the length of a run is the number of transactions used up |
| GreedyOrder.GreedyRunIsSorted | mempool/miner/ordering.go:63-71 | if every list runs from better to worse, so does the whole emission: falling tips, and among equal tips earlier arrivals first |
| TxOrdering.FirstIsBest | mempool/miner/ordering.go:131-136 | the top of the heap is a best head over all accounts, and the heap is empty exactly when no queue is left |
| TxOrdering.RepresentsShift | mempool/miner/ordering.go:139-147 | replacing the top by its account's next transaction again represents the queues |
| TxOrdering.RepresentsDrop | mempool/miner/ordering.go:148-156 | removing the top removes its account and nothing else |
| TxOrdering.TransactionsByPriceAndNonce.constructor | mempool/miner/ordering.go:102-128 | the queues hold exactly each pending list's eligible prefix, in whatever order the accounts are visited |
| TxOrdering.TransactionsByPriceAndNonce.Admit | mempool/miner/ordering.go:110-118 | an account enters with its first transaction, or is forgotten if that cannot pay |
| TxOrdering.TransactionsByPriceAndNonce.Peek | mempool/miner/ordering.go:131-136 | nothing exactly when all queues are empty, otherwise an account's first transaction, no other's having a higher tip, or the same tip and an earlier arrival |
| TxOrdering.TransactionsByPriceAndNonce.Shift | mempool/miner/ordering.go:139-149 | one greedy step: the account of the best head advances, all others stay |
| TxOrdering.TransactionsByPriceAndNonce.FixTop | mempool/miner/ordering.go:144 | after the top was replaced, heap order is restored with the same heads |
| TxOrdering.TransactionsByPriceAndNonce.Pop | mempool/miner/ordering.go:154-156 | the whole account of the best head is dropped |
| TxOrdering.TransactionsByPriceAndNonce.Empty | mempool/miner/ordering.go:160-162 | true exactly when no account has anything left |
| UnifiedIterator.ExtractCosmosEffectiveTip | mempool/iterator.go:251-292 | the loop over the fee coins computes the tip over the base fee from the last bond-denomination amount, with its panics |
| UnifiedIterator.TipPanicsExactlyWhen | mempool/iterator.go:251-292 | the tip computation panics if and only if a fee transaction has no bond coin or no gas |
| UnifiedIterator.TipIs | mempool/iterator.go:251-292 | the tip is what the gas price of the last bond coin, rounded down, leaves over the base fee, at least zero; a price beyond 256 bits counts as zero |
| UnifiedIterator.NoFeeNoTip | mempool/iterator.go:252-256 | a transaction without the fee interface has no tip and counts as zero |
| UnifiedIterator.TakenFromFront | mempool/iterator.go:135-164 | what is taken is the best first transaction of an account when no higher Cosmos tip waits, and otherwise the first Cosmos transaction |
| UnifiedIterator.MergeRunEvm | mempool/iterator.go:225-247 | the EVM items of every merged order are a greedy run of the EVM queues |
| UnifiedIterator.MergeRunCosmos | mempool/iterator.go:225-247 | the Cosmos items are the front of the Cosmos list, in its order |
| UnifiedIterator.PartsCount | mempool/iterator.go:225-247 | every visited item belongs to exactly one of the two parts |
| UnifiedIterator.MergeVisitsEverything | mempool/iterator.go:75-98 | a merge to the end visits every Cosmos transaction and every account's whole eligible list |
| UnifiedIterator.MergeRunTipsDescend | mempool/iterator.go:135-164 | if each pool's tips descend, so do those of the merged order |
| UnifiedIterator.ShownIsTakenExactlyWhen | mempool/iterator.go:196-247 | what Tx shows is what Next consumes, over a whole run, if and only if every EVM transaction converts |
| UnifiedIterator.CosmosShownTwice | mempool/iterator.go:196-247 | a complete run, from any pool with one EVM transaction that does not convert and one Cosmos transaction of no higher tip, that shows the Cosmos transaction twice |
| UnifiedIterator.EvmMempoolIterator.constructor | mempool/iterator.go:48-70 | the iterator starts with the given pools |
| UnifiedIterator.EvmMempoolIterator.GetNextEVMTx | mempool/iterator.go:167-172 | nothing exactly when the EVM queues are empty, otherwise a best head |
| UnifiedIterator.EvmMempoolIterator.Current | mempool/iterator.go:135-164 | the item chosen next may be taken: it heads its pool and the other pool offers no higher tip, ties going to EVM |
| UnifiedIterator.EvmMempoolIterator.Tx | mempool/iterator.go:103-222 | the item shown: the current one, or the Cosmos head when that is an EVM transaction that does not convert |
| UnifiedIterator.EvmMempoolIterator.Next | mempool/iterator.go:75-98 | exactly the current item is consumed, and the result tells whether anything is left |
| UnifiedIterator.MergeRunExtends | mempool/iterator.go:75-98 | one more consumed item extends the merged order at its end |
| UnifiedIterator.SelectFrom | mempool/mempool.go:377-379 | the loop shows a merge run and stops at the filter's first refusal or at the end of both pools |
| UnifiedIterator.SelectBy | mempool/mempool.go:369-380 | from any pending map, the filter sees a merge run of the eligible lists and the Cosmos list until it first refuses or both are exhausted |
| NonceCheck.Incremented | ante/evm/09_increment_sequence.go:22-46 | accepted exactly at the account's sequence below the 2^64 - 1 limit; gap, stale nonce and overflow told apart |
| NonceCheck.AccountKeeper.IncrementNonce | ante/evm/09_increment_sequence.go:16-54 | only the account's sequence changes, by one, and only on acceptance |
| NonceCheck.GreedyRunExecutes | ante/evm/09_increment_sequence.go:16-54 | a greedy run of contiguous lists executes in full if and only if no sequence passes the limit, the only possible refusal being overflow; sequences advance by the numbers emitted |
| NonceCheck.SelectionExecutes | mempool/iterator.go:225-247 | the EVM transactions of the unified order, however far it is followed, all execute below the limit, and each sequence advances by the list of its account less what is left of it |
| NonceCheck.EligibleContiguous | mempool/miner/ordering.go:110-118 | cutting lists at the base fee keeps them contiguous |
| ShownExecution.ShownEvmIsConverted | mempool/iterator.go:196-222 | the EVM transactions a selection shows are those of its order that convert |
| ShownExecution.ShownExecutesExactlyWhen | mempool/mempool.go:369-380 | however far a selection goes, what it shows executes if and only if it shows no transaction of an account after one that did not convert |
| ShownExecution.OrderlyByAccount | mempool/iterator.go:196-247 | whether an order shows something after an unconverted transaction is decided by each account's emissions alone |
| ShownExecution.SelectedExecutes | mempool/mempool.go:369-380 | from a contiguous pending pool: if in no eligible list a transaction that converts follows one that does not, everything shown executes; for a selection that drains the EVM pool the condition is also necessary; the only refusal is a nonce gap |
| ShownExecution.ShownMeetsGap | mempool/mempool.go:369-380 | a pool of two transactions whose complete selection is refused with a nonce gap |
| ResetLoop.RunsKeepInvariant | mempool/txpool/txpool.go:149-258 | the protocol's invariant holds in every state of every run, over all interleavings of loop, reset goroutines, Sync callers and closer |
| ResetLoop.HeadsFollowSteps | mempool/txpool/txpool.go:225-227 | the head that arrived last in a run is the one the loop and its log know, whatever was under way when it arrived |
| ResetLoop.NoLostHead | mempool/txpool/txpool.go:181-255 | never two resets at once; when the loop waits, a reset is under way or the subpools are at the head that arrived last with no forced reset owed |
| ResetLoop.ResetsFormAChain | mempool/txpool/txpool.go:185-208 | every reset starts at the head where the previous one ended and leads to the head that arrived last |
| ResetTrace.SyncGuarantee | mempool/txpool/txpool.go:229-253 | a Sync answered without error was accepted in an earlier step, followed by the start of a reset to the head that had arrived last, in which every subpool was then reset |
| ResetTrace.RequestsRecorded | mempool/txpool/txpool.go:224-253 | the heads, calls and closing of a run are in the log once and in order, and nothing else of the kind |
| ResetTrace.RequestsPossible | mempool/txpool/txpool.go:224-253 | a waiting loop takes any head, call or closing, and a terminated pool refuses every call |
| ResetLoop.AnsweredExactlyWhen | mempool/txpool/txpool.go:174-253 | once terminated, an accepted Sync has been answered if and only if no other was accepted while it was pending |
| ResetLoop.SecondSyncSupersedes | mempool/txpool/txpool.go:245-253 | a run in which a second Sync replaces the first one's waiter |
| ResetLoop.QuitAnswersPending | mempool/txpool/txpool.go:174-179 | a pending Sync is answered with an error at termination, and nothing else is sent |
| ResetLoop.InternalStepReducesWork | mempool/txpool/txpool.go:181-255 | every step of the pool itself reduces the outstanding work |
| ResetLoop.NeverStuck | mempool/txpool/txpool.go:181-255 | unless all is done and everyone answered, the pool can take a step |
| ResetLoop.InternalRunSettles | mempool/txpool/txpool.go:181-255 | left alone, the pool comes to rest within the outstanding work, with the subpools at the head that arrived last and every waiter answered |
| Dispatch.RoutedAtPlace | mempool/txpool/txpool.go:343-355 | each transaction sits in the batch of the first subpool that accepts it, behind those of its owner that came before |
| Dispatch.PlacesGrow | mempool/txpool/txpool.go:343-355 | relative order within a batch is kept |
| Dispatch.SplitConserves | mempool/txpool/txpool.go:343-355 | the batches and the unsupported transactions add up to the input |
| Dispatch.FindSubpool | mempool/txpool/txpool.go:344-354 | the index of the first accepting subpool, -1 if there is none |
| Dispatch.Split | mempool/txpool/txpool.go:340-355 | every subpool's batch and every transaction's owner |
| Dispatch.Reassemble | mempool/txpool/txpool.go:362-373 | answers come back in input order and no answer queue is read when empty |
| Dispatch.Add | mempool/txpool/txpool.go:333-374 | the i-th answer is its owner's answer for transaction i, or "unsupported" if no subpool accepts it |
| Admission.FirstNonceGap | mempool/txpool/validation.go:191-195 | the first nonce from the state nonce on that is not pooled |
| Admission.ValidateExact | mempool/txpool/validation.go:216-266 | into a sound pool a transaction is accepted if and only if the pool with it inserted or replaced is sound |
| Admission.NonceRefusals | mempool/txpool/validation.go:223-233 | exactly when a nonce is too low or too high |
| Admission.FundsRefusal | mempool/txpool/validation.go:234-255 | refused for funds if and only if the nonce fits and the pool with the transaction would cost more than the balance |
| Admission.LimitRefusal | mempool/txpool/validation.go:256-264 | refused for the slot limit if and only if nonce and funds fit, the nonce is new and no slot is left |
| Admission.SubmissionsStaySound | mempool/txpool/validation.go:216-266 | over any run of submissions the pooled cost stays within the balance, nonces stay contiguous where gaps are forbidden and the slot limit holds |
| Varint.WrapIsMod | types/indexer.pb.go:224-240 | truncation to a machine width is the remainder |
| Varint.Int32SignExtends | types/indexer.pb.go:149-153 | a negative int32 extended to 64 bits and truncated again is unchanged |
| Varint.SovIsLength | types/indexer.pb.go:213-215 | the size computed from the bit length is the number of bytes written |
| Varint.EncodeVarint | types/indexer.pb.go:172-182 | the bytes before the offset are the encoding, nothing else in the buffer changes |
| Varint.ReadEncode | types/indexer.pb.go:224-238 | reading an encoding followed by anything gives the value and its length |
| Varint.ReadExtends | types/indexer.pb.go:224-238 | what follows a complete varint does not matter |
| Varint.ReadVarint | types/indexer.pb.go:224-238 | the accumulating loop reads the same value, truncated to its field, with the same overflow and end-of-input errors |
| TxResultCodec.SizeIsLength | types/indexer.pb.go:183-211 | Size is the length of the wire form |
| TxResultCodec.MarshalToSizedBuffer | types/indexer.pb.go:124-170 | writing backwards fills exactly the end of the buffer with the wire form and touches nothing before it |
| TxResultCodec.Marshal | types/indexer.pb.go:109-117 | a fresh buffer of exactly Size bytes holds the wire form |
| TxResultCodec.Skip | types/indexer.pb.go:403-480 | a skipped field has a positive length below 2^63 |
| TxResultCodec.NextField | types/indexer.pb.go:223-395 | a field that is read stays inside the input and makes progress |
| TxResultCodec.RoundTrip | types/indexer.pb.go:109-402 | unmarshalling what was marshalled gives back every record, negative heights and indexes included |
| TxResultCodec.MarshalledInjective | types/indexer.pb.go:109-215 | different records have different wire forms |
| TxResultCodec.MarshalledEmptyExactlyWhen | types/indexer.pb.go:124-170 | the wire form is empty if and only if every field is zero |
| WireFormat.EncodeDigits | types/indexer.pb.go:172-182 | byte i of a varint is digit i in base 128, all but the last with the top bit set |
| WireFormat.EncodeLength | types/indexer.pb.go:172-182 | no digit is left out and the last is not zero |
| WireFormat.WireForm | types/indexer.pb.go:124-170 | the fields in order under the tags 0x08 to 0x38, zero ones left out, signed ones in two's complement |
| WireFormat.FieldsByTag | types/indexer.pb.go:247-381 | which field each tag sets from any varint, and how it is truncated or signed |
| WireFormat.RefusedTags | types/indexer.pb.go:239-251 | exact errors for the end of a group, a field number below one and a wrong wire type |
| WireFormat.RefusedVarints | types/indexer.pb.go:225-238 | exact errors for a tag or value that breaks off or is too long |
| WireFormat.ReadFails | types/indexer.pb.go:225-238 | overflow exactly after ten marked bytes, early end exactly when fewer marked bytes are all there is |
| TxResultReader.SkipOnce | types/indexer.pb.go:408-471 | one turn of the skipping loop, with its wire types, group depth and errors |
| TxResultReader.SkipIndexer | types/indexer.pb.go:403-480 | the loop computes the length of the field at the front, for arbitrary bytes, and never reads outside them |
| TxResultReader.TxResultMessage.ReadField | types/indexer.pb.go:247-381 | one known field is read into the record and no other field changes; after a malformed varint the field holds the digits read so far, the flag its old value |
| TxResultReader.TxResultMessage.UnmarshalOnce | types/indexer.pb.go:222-396 | one turn of Unmarshal consumes one field |
| TxResultReader.TxResultMessage.Unmarshal | types/indexer.pb.go:219-402 | on arbitrary bytes the loop ends with an error or has consumed all input, and computes the specified record |
| UnknownFields.SkipField | types/indexer.pb.go:403-480 | skipping passes over exactly one well-formed field, nested groups included |
| UnknownFields.UnmarshalConcatenated | types/indexer.pb.go:219-402 | a concatenation is unmarshalled part after part onto the same record |
| UnknownFields.UnmarshalMoved | types/indexer.pb.go:382-395 | the position of the input does not change what is read |
| UnknownFields.UnknownFieldIgnored | types/indexer.pb.go:382-395 | inserting a well-formed unknown field at any field boundary changes neither acceptance nor the record |
| IndexKeys.BigEndianRoundTrip | indexer/kv_indexer.go:170-174 | fixed-width big-endian numbers read back |
| IndexKeys.BigEndianOrder | indexer/kv_indexer.go:170-174 | byte order of big-endian numbers is numeric order |
| IndexKeys.ParseTxIndexKey | indexer/kv_indexer.go:227-233 | the block number read from a position key is the one written |
| IndexKeys.TxIndexKeyOrder | indexer/kv_indexer.go:170-174 | keys of non-negative heights and indexes sort if and only if their (height, index) pairs do |
| IndexKeys.NegativeBlocksSortLast | indexer/kv_indexer.go:170-174 | a negative height sorts after every non-negative one |
| IndexKeys.TxIndexKeyInjective | indexer/kv_indexer.go:170-174 | different positions have different keys |
| IndexKeys.PrefixesDoNotMix | indexer/kv_indexer.go:25-31 | a hash key is never a position key nor inside the range scanned for them |
| KvIndexer.EntryPositions | indexer/kv_indexer.go:58-119 | the k-th indexed message of a block carries eth index k, whichever transactions were skipped |
| BlockMessages.EntryOfMessage | indexer/kv_indexer.go:58-119 | a message is indexed when its transaction is accepted, decoded, eth and parsed and failed or has that event; its entry has the message's hash, both indexes, the event's gas and flag or the limit and true, the gas sum of the messages so far modulo 2^64, and as place the number of indexed messages before it |
| BlockMessages.MessageOfEntry | indexer/kv_indexer.go:58-119 | every entry of a block belongs to an indexed message |
| KvIndexer.BatchWrites | indexer/kv_indexer.go:115-123 | a batch built apart and written at once equals saving the entries one by one |
| KvIndexer.Indexer.IndexTx | indexer/kv_indexer.go:82-118 | the batch gains exactly the entries of one transaction, with running gas totals and positions |
| KvIndexer.Indexer.IndexBlock | indexer/kv_indexer.go:52-124 | all entries of the block are saved, or none when the write fails |
| IndexAgreement.IndexBlockAgrees | indexer/kv_indexer.go:52-124 | indexing a block, first time or again, keeps the database equal to the entries of exactly the indexed positions |
| IndexAgreement.LookupByHash | indexer/kv_indexer.go:137-150 | a hash is found, with the chain's record, if and only if it is indexed and its record is not all zero |
| IndexAgreement.LookupOfStrangeHash | indexer/kv_indexer.go:137-150 | a hash of no message of the chain is not found |
| IndexAgreement.LookupAboveGenesis | indexer/kv_indexer.go:137-150 | from height 1 on a hash is found if and only if it is indexed |
| IndexAgreement.LookupByPosition | indexer/kv_indexer.go:153-161 | likewise by block and index, for indexed and unindexed positions |
| BlockMessages.LookupOfMessage | indexer/kv_indexer.go:137-162 | from height 1 on, looking up an indexed message by hash or by block and place gives its record, written out from the block's transactions |
| IndexAgreement.FirstAndLastBlock | indexer/kv_indexer.go:177-200 | the first and last indexed block are the numeric minimum and maximum, -1 for an empty index |
| IndexRuns.GaplessMeansNoHoles | indexer/kv_indexer.go:177-200 | the set of indexed blocks is gapless if and only if no position between first and last block is missing |
| IndexRuns.RunKeepsGapless | server/indexer_cmd.go:84-112 | one run of any driver, stopped anywhere, keeps the index gapless |
| IndexRuns.RunsLeaveNoHoles | server/indexer_service.go:77-122 | no sequence of backward, forward and service runs leaves a hole |
| IndexDrivers.IndexBackward | server/indexer_cmd.go:85-98 | the blocks below the first indexed one, or below the store height of an empty index, are indexed downwards; all down to block 1, unless the next one is missing or cannot be written |
| IndexDrivers.IndexForward | server/indexer_cmd.go:99-112 | the blocks above the last indexed one, or from block 1, are indexed upwards; all up to the store height, unless the next one is missing or cannot be written |
| IndexDrivers.RunWithinChain | server/indexer_cmd.go:68-112 | a run over the store of the moment is the same run over the chain the store is part of |
| IndexDrivers.StoreRunsLeaveNoHoles | server/indexer_cmd.go:68-112 | successive driver runs, each over the store as it is when it starts, leave no hole |
| IndexDrivers.CatchUp | server/indexer_service.go:102-122 | a pass indexes the blocks whose write succeeds and advances past the others, rereading the latest block before each; it ends by a fetch error exactly when the latest block is not reached |
| IndexDrivers.ServiceTurn | server/indexer_service.go:88-123 | one turn of the endless loop; caught up, or after a fetch error, it changes nothing |
| IndexDrivers.TurnsCompose | server/indexer_service.go:88-123 | successive turns amount to one longer pass |
| IndexDrivers.PassIsRun | server/indexer_service.go:77-122 | when every write succeeds a pass is a service run, from the last indexed block or, on an empty index, from the latest block |
| IndexDrivers.ServiceHolesExactlyWhen | server/indexer_service.go:118-121 | from an empty or a gapless index, a pass leaves no hole if and only if no failed block with entries lies between an indexed and a later written one |
| IndexDrivers.ServiceLeavesHole | server/indexer_service.go:81-121 | three blocks on an empty index, the middle write failing, leave a hole |
| Flatten.MsgFieldsDistinct | ethereum/eip712/message.go:139-141 | the names msg0, msg1, ... differ from each other and from msgs |
| Flatten.MsgFieldIsNumbered | ethereum/eip712/message.go:139-141 | message i has the field msg followed by the numeral of i |
| Flatten.FlattenPayloadMessages | ethereum/eip712/message.go:70-152 | exact outcome for a missing list, null, a non-array, and an array: fails at the first message whose field exists or that is no object; otherwise every message has its field and nothing else changed but the removed list |
| Flatten.FlattenReversible | ethereum/eip712/message.go:70-152 | the payload is recovered from the flattened one and the count |
| Flatten.FlattenInjective | ethereum/eip712/message.go:70-152 | different payloads with a message array flatten differently |
| Text.DescendingUnique | ethereum/eip712/types.go:224-244 | the descending key order is unique, so schema generation is deterministic |
| Text.SortDescending | ethereum/eip712/types.go:224-244 | the keys in strictly descending order, none missing or added |
| Text.DecimalReads | ethereum/eip712/types.go:312-314 | an index is written in decimal without leading zeros |
| Text.SplitJoined | ethereum/eip712/types.go:341-349 | splitting is undone by joining |
| Text.SplitSnoc | ethereum/eip712/types.go:123-124 | what follows the last separator is the last part |
| Text.UpperIsCapital | ethereum/eip712/types.go:340-351 | letters become their capitals and everything else stays |
| Sanitize.SanitizeTypedef | ethereum/eip712/types.go:338-356 | the buffer loop computes the sanitized name |
| Sanitize.SanitizedClean | ethereum/eip712/types.go:338-356 | no separator is left in a sanitized name |
| Sanitize.SanitizedSubField | ethereum/eip712/types.go:338-356 | a sub-field's name is its parent's name followed by its own |
| Sanitize.NextWord | ethereum/eip712/types.go:349-352 | every further word of a field name is capitalised and appended |
| Sanitize.SanitizedExample | ethereum/eip712/types.go:334-338 | the example of the comment: _.foo_bar.baz becomes TypeFooBarBaz |
| Sanitize.ResanitizedUnchanged | ethereum/eip712/types.go:208 | sanitizing a generated key again changes nothing |
| Sanitize.PrefixForSubField | ethereum/eip712/types.go:267-269 | a sub-field's prefix is below the root and never the root |
| Schema.DescribesMono | ethereum/eip712/types.go:139-220 | a struct goes on describing its object while definitions are only added |
| Schema.TypableKinds | ethereum/eip712/types.go:165-216 | which kinds of values get a type |
| Schema.PrimitiveKinds | ethereum/eip712/types.go:361-375 | bool, int64, string, and string[] for an empty array |
| Schema.ArrayKinds | ethereum/eip712/types.go:165-191 | an array has its first element's type with brackets |
| Schema.FittingTypeResolved | ethereum/eip712/types.go:165-213 | a type that fits a value is primitive, defined, or an array of such |
| Schema.ClosedAdd | ethereum/eip712/types.go:305 | adding a definition whose references are defined keeps the map closed |
| TypeMaps.InitialClosed | ethereum/eip712/types.go:36-75 | the built-in definitions refer only to each other and to primitives |
| TypeMaps.TypesAreEqual | ethereum/eip712/types.go:320-332 | true exactly for equal lists of fields |
| TypeMaps.TypeMap.AddTypesToRoot | ethereum/eip712/types.go:278-308 | the definition is at the first index that was free or held the same one; after a thousand other definitions it fails and changes nothing |
| TypeMaps.PlacedMeans | ethereum/eip712/types.go:281-307 | in plain keys: the first of name0 to name999 that was free or held the same definition |
| TypeMaps.RootTypeOf | ethereum/eip712/types.go:115-128 | the root type is Type and what follows the last slash of the message type, or all of it |
| TypeMaps.RootTypeMissing | ethereum/eip712/types.go:116-120 | without a non-empty string as type there is no root type |
| TypeMaps.TypeMap.RecursivelyAddTypesToRoot | ethereum/eip712/types.go:143-220 | the returned key describes the object all the way down, and every struct is named by its path; existing definitions stay, new keys end in a digit, the map stays closed; failure takes a full set of indices |
| TypeMaps.TypeMap.FieldType | ethereum/eip712/types.go:165-216 | a member gets a type exactly when it is typable, and the type fits it |
| TypeMaps.TakenCount | ethereum/eip712/types.go:298-302 | a name whose first n indices are taken needs n generated keys |
| CreateTypes.AddMsgTypesToRoot | ethereum/eip712/types.go:91-137 | exact errors for a non-object and for a missing type; otherwise Tx gains the message with a struct named after its type that describes it |
| CreateTypes.SchemaGrows | ethereum/eip712/types.go:77-84 | one more message keeps the schema of the earlier ones |
| CreateTypes.CreateEIP712Types | ethereum/eip712/types.go:35-87 | on success the map is closed, built-ins are as given, Tx lists the messages in order, and each struct describes its message, is named by what follows the last slash of its type, and names its sub-structs by their paths; otherwise the error is that of the first malformed message, or there are more than a thousand structs |
| CreateTypes.BuiltInTable | ethereum/eip712/types.go:36-75 | the built-in definitions of every schema, written out |
| CreateTypes.TooManyForOneName | ethereum/eip712/types.go:278-308 | more than a thousand messages of one type name with different typable members have no schema, so creation fails |
| Decimals.MulWhole | utils/utils.go:239-240 | a decimal product with a whole number is exact despite the rounding |
| BaseFee.BaseFeeMeetsEip1559 | utils/utils.go:229-254 | at or above target the fee is EIP-1559's; below, unless the minimum binds, it is EIP-1559's if and only if the decrease is whole, and one less otherwise |
| BaseFee.DecreaseOffByOne | utils/utils.go:247-253 | an input where it is one less |
| BaseFee.CalcBaseFeeIsNextFee | utils/utils.go:211-227 | header and parameters give the next fee with the converted minimum; zero elasticity is an error |
| BaseFee.FeeBeforeLondon | utils/utils.go:212-215 | before London the fee is 10^9 |
| BaseFee.ZeroTargetFee | utils/utils.go:229-237 | with a zero target the fee stays for an unused block and is zero otherwise |
| BaseFee.ZeroTargetDrop | utils/utils.go:211-237 | a header and parameters with a zero target whose next fee is zero although the minimum is one |
| BaseFee.StepKeepsFloor | utils/utils.go:235-253 | from a fee at or above the minimum, the next is below it if and only if the target is zero, gas was used and the minimum is at least one |
| BaseFee.ChangeIsBounded | utils/utils.go:239-253 | a block of at most twice its target moves the fee by at most a denominator-th part, or one |
| BaseFee.EmptyBlockFalls | utils/utils.go:247-253 | an empty block lowers the fee until it is the minimum, and then leaves it |
| BaseFee.RunKeepsFloor | utils/utils.go:229-254 | a whole run stays at or above the minimum if and only if no block drops the fee to zero |
| BaseFee.EmptyRunReachesFloor | utils/utils.go:229-254 | under empty blocks the fee loses at least one a block and reaches the minimum |
| FeeChecker.FindTipCap | ante/evm/fee_checker.go:68-82 | the tip of the first dynamic fee option, zero if nil, the maximum if there is none |
| FeeChecker.TipCapIs | ante/evm/fee_checker.go:72-82 | the first dynamic fee option decides the tip, nil counting as zero |
| FeeChecker.TipCapDefault | ante/evm/fee_checker.go:68-69 | without one the tip is MaxInt64 |
| FeeChecker.CheckFee | ante/evm/fee_checker.go:48-122 | accepted if and only if the tip is not negative, there is gas and the offered fee covers the base fee; the charge is base fee plus tip for all the gas, rounded up, where the offer covers that, and otherwise the offered price; the priority is the tip actually paid in units of 10^6, at most MaxInt64; the error tells which condition failed |
| FeeChecker.ChargeIsFair | ante/evm/fee_checker.go:97-119 | the charge lies between the base fee of all the gas and both the offered fee and base fee plus tip, the price between base fee and fee cap, the priority in 0 to MaxInt64 |
| FeeChecker.ChargeIsMonotone | ante/evm/fee_checker.go:104-119 | a higher fee and tip never lower charge or priority |
| FeeChecker.WholeFeeCharged | ante/evm/fee_checker.go:97-112 | where the tip does not bind, up to 10^18 gas, the whole offered fee is charged |
| Authz.IsDisabledMsg | ante/cosmos/authz.go:81-89 | membership in the disabled list |
| Authz.CheckDisabledMsgs | ante/cosmos/authz.go:44-77 | accepts a forest if and only if every exec and grant unpacks, no grant names a disabled type, nothing under an exec is of one, and the ordinals along every chain of execs stay below the cap |
| Authz.AcceptedMeans | ante/cosmos/authz.go:44-77 | for a transaction, the conditions on execs, on grants and on inner messages, each by itself |
| Authz.NestedExact | ante/cosmos/authz.go:44-58 | execs nested five deep are accepted and six deep are not |
| Authz.SiblingsExact | ante/cosmos/authz.go:48-58 | five empty execs side by side are accepted and six are not |
| Authz.NestingBounded | ante/cosmos/authz.go:44-58 | accepted execs are nested at most five deep |
| Authz.SiblingsBounded | ante/cosmos/authz.go:48-58 | an accepted transaction has at most five execs side by side |

## Left out

- Logging, metrics, contexts, locks and event feeds; locked methods are atomic steps.
- The legacy subpool, the Cosmos priority mempool, StateDB and keepers: known here only by the facts the models use.
- Conversion of EVM transactions to SDK transactions: a given property of each transaction.
- Signature recovery, blob and precompile code, JSON-RPC, CLI and application wiring: mostly libraries or easy members.
- The current base fee of the chain head (mempool/iterator.go:295-324): a parameter.
- The txpool's own state field and `StateAt` failures, and a second `Close`: they do not enter the reset protocol.
- The min-gas-price fallback of the fee checker at genesis or before London (ante/evm/fee_checker.go:126-174): an easy branch.
- Bit-length panics of `LegacyDec` and `Int`: values are unbounded.
- Unicode title casing and the path syntax of gjson: object keys are plain and only ASCII letters are upper-cased.
- Panic recovery around the schema walk: nothing in the model panics.
- UnifiedIterator.SelectBy: takes Cosmos transactions whose tip can be computed, because the others panic (`TipPanicsExactlyWhen`).
- Admission.ValidateExact: the callbacks are exact functions of one account's pool; the fixed balance and state nonce are those of one head.
- IndexAgreement.LookupByPosition: chains have non-negative heights, distinct eth hashes and at most 2^31 eth messages a block.
- CreateTypes.CreateEIP712Types: between the two bounds, more than a thousand structs at least and more than a thousand different messages of one name at most, it is not stated which payloads exhaust the indices: nested structs of different paths can share a name, and a name ending in digits can share keys with another.
