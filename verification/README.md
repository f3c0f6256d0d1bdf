# Verification of the Redimos command layer

Redimos serves the Redis protocol from one DynamoDB table. Each key has one meta item (type, expiry,
member count) and separate value or member items, and every command is a program over store
primitives. This project models that program in Dafny and proves that it behaves as Redis does.

* **Keyspace.** `Redis.dfy` is the specification: a map from key to typed value and optional expiry, one
  function per command. `Table.dfy` is the layout with its abstraction `View` and serial invariant `Inv`,
  `Storage.dfy` the store seam as a class, `Seam.dfy` the shared write path, and the `*Commands.dfy` files
  the handlers. `Keyspace.ServeAll` is the refinement over whole runs. `Laws.dfy` and `LimitLaws.dfy` state
  what every command of the specification keeps, `StringLaws.dfy` and `CollectionLaws.dfy` what the commands
  mean, each told by another command.
* **Concurrent protocols.** `Ledger.dfy` (member counts under interleaved adds and removes), `Rmw.dfy` and
  `CasLoop.dfy` (compare-and-set loops), `Shutdown.dfy` (server drain and lazy deleter).
* **Codecs and arithmetic.** `Decimal.dfy`, `PartitionKeys.dfy`, `Expiry.dfy`, `Resp.dfy`, `Bitfield.dfy`,
  `HyperLogLog.dfy` with `PfCommands.dfy`, `Geohash.dfy`, on top of `Words.dfy` and `Powers.dfy`.
* **Fast forms against simple ones.** `Glob.dfy` with `GlobLaws.dfy`, `ScanRegistry.dfy`, `ZAdd.dfy`.

Premises of the keyspace refinement: commands are served one after the other, one clock reading serves a
whole command (the source reads the clock again within SET, APPEND, SETRANGE, SMOVE and RPOPLPUSH, so a key
falling due in between may be seen both ways), reads are strongly consistent (the `EventuallyConsistent`
option is off), the backend raises no errors, deletion is synchronous (`client.go:117-132`), the clock is
positive and does not run backwards, native TTL does not remove meta items, argument counts passed the
command table, and an oversized push meets a live key (`Redis.Admissible` writes these down). The clock,
random draws, the element hash of HyperLogLog, score parsing and what interfering clients write are
parameters.

Where the code and its documentation differ, the model follows the code:

* `internal/command/datacmd.go:186-191` says the count stays exactly equal to the member count. That holds
  without overlapping commands (`Ledger.SerialRunsAreExact`); with them it holds if and only if no
  conditional deletion removed a count below zero (`Ledger.QuiescentCount`), and `Ledger.DriftHappens` is a
  run where one is.
* `internal/guard/size.go:13-14` says a rejected write never produces a partial item. LPUSH and RPUSH claim
  the type before the size check, so a rejected push onto an absent key leaves an empty list
  (`ListCommands.HandlePush`, `ListCommands.OversizedPushIsWrong`).
* `internal/guard/size.go:1-5` says the guard keeps names and values within limits. RPOPLPUSH has no guard, so
  it can create a key with a name over 1 KB, and only it can (`LimitLaws.LimitsHoldExceptRotation`).
* `internal/command/zsets_add.go:25-29` lists the NX/XX check before the pair-count check; the code checks
  the pair count first (`ZAdd.ParseZAddFlags`).
* `internal/server/server.go:171-177` says draining keeps late reclaims from being lost. That holds if and
  only if nothing is in flight when the wait of Drain ends (`Shutdown.DrainDecides`);
  `Shutdown.TimedOutDrainLoses` is a run that loses a key after a timeout.
* `internal/command/hll.go:136-137` says PFADD replies 1 if a register changed or the key was created. The
  flag outlives attempts that lose the race, so the reply can be 1 although the landed attempt changed
  nothing (`PfCommands.LostAttemptAnswers`); `PfCommands.AnswerIsSerialIff` says exactly when it is right.
* `internal/command/datacmd.go:222-224` says an expired key is treated as absent. ZADD with NX, XX or CH
  reads scores before the takeover; it behaves as on an absent key if and only if it names no member the
  expired key left behind (`ZAdd.FlagPathIsExact`, `ZAdd.LeftoverExamples`).
* `internal/command/geohash.go:3-7` calls the hash 52-bit. A position on an upper range end needs more
  (`Geohash.FitsBelowUpperEnds`).

## Model

| member | source | states |
|---|---|---|
| `Keyspace.ServeAll` | internal/command/datacmd.go:196-246 | over every admissible run from any sound table, the replies are those of a plain Redis started on the keyspace the table represents, the table ends up representing the keyspace Redis ends in, and the serial invariant holds |
| `Keyspace.Execute` | internal/command/router_storage.go:138-160 | each registered command, whatever its family, answers and changes the represented keyspace as its Redis operation says and keeps the serial invariant, if and only if it is not an oversized push onto an absent key, whose exact effect is stated |
| `Table.Commit` | internal/meta/meta.go:159-191 | storing any partition that satisfies the per-key invariant stores or deletes exactly that key of the represented keyspace |
| `Table.Observe` | internal/command/state.go:17-30 | every lookup of the represented keyspace (type, expiry, string, hash, list, set) in terms of the stored items; a live collection is never empty |
| `Table.Later` | internal/meta/meta.go:197-199 | letting the clock advance over unchanged items removes exactly the keys that fall due |
| `Table.ViewIsProper` | internal/meta/meta.go:197-199 | the represented keyspace never shows a key that is due or an empty collection |
| `Laws.EveryCommandObeys` | internal/command/datacmd.go:222-246 | every command leaves keys it does not name untouched; unless it is one of the overwriting or expiry commands it keeps the expiry of surviving keys and gives new keys none; it never creates an empty or due key |
| `Laws.OverwriteClearsExpiry` | internal/command/strings.go:268-354 | after a plain SET or a GETSET, over every later run and at every later time: TTL answers -1, or -2 once the key is gone, unless a command that resets expiries named the key; and while commands naming it only read, it is there with that value |
| `Laws.DelIsDifference` | internal/command/keys.go:132-161 | DEL removes the set of named keys and counts each live one once, however often it is named |
| `Laws.MoveConservesMembers` | internal/command/sets.go:851-962 | SMOVE conserves the union of both sets, also when source and destination are the same key |
| `Laws.RotationConservesElements` | internal/command/lists2.go:414-499 | RPOPLPUSH moves one element and keeps the order of all others, also as a rotation of one key |
| `Laws.ErrorsChangeNothing` | internal/command/datacmd.go:183-246 | a command that answers an error leaves the keyspace as it was |
| `Laws.ServeOne` | internal/command/datacmd.go:196-246 | one request answers what its command does to the keys still alive |
| `Laws.ServeInOrder` | internal/command/datacmd.go:196-246 | a run served in two parts ends in the same keyspace, with the replies in the order of the requests |
| `LimitLaws.LimitsHoldExceptRotation` | internal/guard/size.go:21-45 | with every stored name and value within 1024, 1023 and 399360 bytes, they are so after a command if and only if it is not an RPOPLPUSH that moves an element to a key name over 1024 bytes |
| `LimitLaws.TypesAreKept` | internal/command/datacmd.go:222-246 | a key that stays keeps its type under every command but SET, SETEX, PSETEX and the STORE commands |
| `StringLaws.LimitsAreInclusive` | internal/guard/size.go:21-45 | the guard accepts exactly 1024 bytes of key, 1023 of member and 399360 of value |
| `StringLaws.ConditionalSets` | internal/command/strings.go:118-213 | where SET succeeds exactly one of SET NX and SET XX stores, NX when EXISTS answers 0 and XX when it answers 1, and the other answers nil and changes nothing |
| `StringLaws.SetNXIsSet` | internal/command/strings.go:218-248 | SETNX does what SET NX does, answering 1 and 0 |
| `StringLaws.StoredIsRead` | internal/command/strings.go:268-314 | after SET over any type GET, STRLEN and TYPE tell the new string |
| `StringLaws.GetSetSwaps` | internal/command/strings.go:321-354 | GETSET answers what GET answered before, and GET then answers the new value |
| `StringLaws.SetExpires` | internal/command/strings.go:118-213 | after SET EX n TTL answers n and the key is there for exactly n seconds; PX rounds down to a second, never to the current one |
| `StringLaws.SetExIsSet` | internal/command/strings.go:254-314 | SETEX and PSETEX are SET with EX and PX |
| `StringLaws.AppendExtends` | internal/command/strings_rmw.go:202-226 | the old string is a prefix, the argument follows, and appending twice is appending the concatenation |
| `StringLaws.SetRangeBytes` | internal/command/strings_rmw.go:236-308 | byte by byte: the value from the offset, old bytes elsewhere, zero bytes in a gap |
| `StringLaws.WindowSpellings` | internal/storage/store_zsets.go:281-310 | negative and non-negative spellings of a window select the same elements, first to last inclusive |
| `StringLaws.WindowClamps` | internal/storage/store_zsets.go:281-310 | bounds outside the sequence are clamped, and bounds out of order select nothing |
| `StringLaws.SubstringIsWindow` | internal/command/strings.go:728-758 | GETRANGE is the window, except that a stop before the string still selects its first byte |
| `StringLaws.GetRangeReads` | internal/command/strings.go:690-720 | GETRANGE answers the bytes from start to stop under each of their spellings |
| `StringLaws.IncrByAdds` | internal/command/strings.go:552-608 | INCRBY answers the sum, GET reads its rendering, and the opposite increment restores the number |
| `StringLaws.ExistsAddsUp` | internal/command/keys.go:168-186 | EXISTS answers 1 for a key TYPE knows and adds up over its arguments |
| `StringLaws.TypeDecides` | internal/command/state.go:17-30 | each family of commands refuses exactly the keys to which TYPE gives another type |
| `StringLaws.ExpireDeletesAtDeadline` | internal/command/keys.go:268-315 | for every form and argument the key is visible later exactly before the requested deadline, with its value; a past deadline deletes it |
| `StringLaws.TtlCountsDown` | internal/command/keys.go:418-442 | TTL after EXPIRE n is n and falls by one a second, PTTL by a thousand, until the key is gone |
| `StringLaws.PersistKeeps` | internal/command/keys.go:448-469 | PERSIST answers 1 exactly if TTL showed an expiry, and keeps the value |
| `CollectionLaws.HSetIsRead` | internal/command/hashes.go:106-134 | HGET answers the last value given for a field and what it answered before for any other; the reply is the growth of HLEN |
| `CollectionLaws.HSetNeedsPairs` | internal/command/hashes.go:178-190 | a field without a value is refused and nothing changes |
| `CollectionLaws.HSetNXKeepsFirst` | internal/command/hashes.go:196-220 | a missing field is stored, a present one keeps its value |
| `CollectionLaws.HIncrByAdds` | internal/command/hashes.go:569-597 | the reply is old number plus delta, and HGET reads its rendering |
| `CollectionLaws.HDelIsRead` | internal/command/hashes.go:426-465 | named fields are gone, others unchanged; the reply is the loss of HLEN and the key goes with its last field |
| `CollectionLaws.SetsAreRead` | internal/command/sets.go:131-210 | SISMEMBER tells what SADD and SREM did; the replies are growth and loss of SCARD |
| `CollectionLaws.UnionIsLeast` | internal/command/sets.go:771-837 | a stored union is the least set that contains every source |
| `CollectionLaws.InterIsGreatest` | internal/command/sets.go:771-837 | a stored intersection is the greatest set that every source contains |
| `CollectionLaws.DiffIsRest` | internal/command/sets.go:771-837 | a stored difference is what the first source has and no other one does |
| `CollectionLaws.InterStopsAtEmpty` | internal/command/sets.go:623-691 | an absent source ends SINTERSTORE whatever follows |
| `CollectionLaws.WrongSourceFails` | internal/command/sets.go:623-691 | for union and difference a source of another type is an error wherever it stands |
| `CollectionLaws.SMoveMoves` | internal/command/sets.go:851-962 | SMOVE answers whether the member was there, and then it is in the destination and no longer in the source |
| `CollectionLaws.PushOneByOne` | internal/command/lists.go:114-152 | pushing elements at once is pushing them one by one |
| `CollectionLaws.PushThenPop` | internal/command/lists.go:114-251 | a pushed element stands at its end, and popping there answers it and restores the keyspace |
| `CollectionLaws.PopTakesEnd` | internal/command/lists.go:215-251 | a pop answers what LINDEX shows at that end and takes that element only |
| `CollectionLaws.PushXNeedsKey` | internal/command/lists.go:170-199 | LPUSHX and RPUSHX are the pushes where EXISTS answers 1, and nothing elsewhere |
| `CollectionLaws.RPopLPushPops` | internal/command/lists2.go:414-499 | RPOPLPUSH answers what RPOP of the source would |
| `CollectionLaws.NoSuchElement` | internal/command/lists2.go:75-135 | LSET beyond either end is an error, LINSERT without its pivot answers -1 |
| `CollectionLaws.LIndexReads` | internal/command/lists.go:307-345 | element i is read under i and i - n, and nothing beyond either end |
| `CollectionLaws.LSetIsRead` | internal/command/lists2.go:75-135 | the element is read back under its index and every other one is what it was |
| `CollectionLaws.LTrimKeeps` | internal/command/lists2.go:143-193 | LTRIM keeps the elements from start to stop under each of their spellings |
| `CollectionLaws.LInsertSplits` | internal/command/lists2.go:320-401 | the value stands directly before or after the first pivot |
| `CollectionLaws.LRemFromHead` | internal/command/lists2.go:262-313 | a positive count drops the first n occurrences and nothing else |
| `CollectionLaws.LRemFromTail` | internal/command/lists2.go:262-313 | a negative count drops the last n occurrences and nothing else |
| `CollectionLaws.LRemAll` | internal/command/lists2.go:262-313 | a zero count drops every occurrence |
| `CollectionLaws.LRemCounts` | internal/command/lists2.go:201-248 | the keyspace holds that list and the reply is how many occurrences went |
| `CollectionLaws.AbsentKeyReads` | internal/command/state.go:17-30 | an absent key reads like an empty one of any type |
| `CollectionLaws.AbsentKeyStaysAbsent` | internal/command/state.go:17-30 | an absent key is not created by what only takes away, moves or changes |
| `CollectionLaws.NotANumber` | internal/command/args.go:95-150 | a token that is no canonical int64 is refused wherever a number is expected, and nothing changes |
| `CollectionLaws.NotACounter` | internal/storage/store_strings.go:70-115 | a counter that holds text, or whose sum leaves int64, refuses the increment |
| `Seam.EnsureTypeExpiring` | internal/command/datacmd.go:235-246 | the claim fails exactly for a live key of another type; an absent or expired key becomes a fresh meta item with its stale items reclaimed, a live key is unchanged |
| `Seam.AdjustCount` | internal/command/datacmd.go:196-220 | the count moves by the delta, and the meta item goes exactly when a removal brings it to zero or below |
| `Seam.DeleteMeta` | internal/meta/meta.go:164-175 | the whole partition is gone after a synchronous delete, and the answer says whether a meta item existed |
| `Seam.Enqueue` | internal/meta/deleter.go:166-177 | the synchronous deleter spares a recreated key and otherwise reclaims every item |
| `Seam.OverwriteAnyType` | internal/command/strings_rmw.go:33-46 | a collection about to be overwritten is cleared, an absent or String key is untouched |
| `Seam.KeyLive` | internal/command/datacmd.go:77-84 | a key is live when it has a meta item that is not due |
| `Seam.LoadMetaState` | internal/command/state.go:17-30 | absent, wrong kind or live, decided from the meta item and the clock |
| `Storage.Store.EnsureType` | internal/storage/store.go:137-154 | one conditional write: refused exactly for another type, otherwise the key exists with the count moved by the delta, which is returned |
| `Storage.Store.EnsureTypeExpiring` | internal/storage/store.go:156-165 | as EnsureType but an expired key is absent: it is taken over with fresh count and no expiry; the new count and the takeover are reported |
| `Storage.Store.CreateTypeIfAbsent` | internal/storage/store.go:167-175 | claims exactly the keys that are absent or expired, resetting count and expiry |
| `Storage.Store.SetExpire` | internal/storage/store.go:181-183 | records the expiry of an existing meta item and reports whether there was one |
| `Storage.Store.DeleteMetaIfEmpty` | internal/storage/store.go:194-199 | removes the meta item exactly when its count is zero or below |
| `Storage.Store.DeleteMembers` | internal/storage/store.go:201-207 | removes every item of the partition except the meta item and answers how many there were |
| `Storage.Store.SetStringIfEquals` | internal/storage/store.go:252-265 | lands exactly when the value item is still what the caller read |
| `Storage.Store.GetSetString` | internal/storage/store.go:247-250 | writes the value and returns the one it replaced |
| `Storage.Store.HSet` | internal/storage/store_hashes.go:22-42 | writes fields and reports exactly the number that did not exist |
| `Storage.Store.HDel` | internal/storage/store_hashes.go:129-143 | deletes fields and reports exactly the number that existed |
| `Storage.Store.SAdd` | internal/storage/store_sets.go:20-33 | adds members and reports exactly the new ones |
| `Storage.Store.LRPush` | internal/storage/store_lists.go:30-66 | the elements end up at the chosen end in push order |
| `Storage.Store.LReplaceAll` | internal/storage/store_lists.go:152-172 | the partition holds exactly the new sequence and its meta item |
| `StringCommands.HandleGet` | internal/command/strings.go:77-111 | GET refines reading the keyspace, wrong types and absent keys included |
| `StringCommands.HandleSet` | internal/command/strings.go:118-213 | SET with NX, XX, EX, PX over a key of any type, live, expired or absent, is the single keyspace update, with the error cases first |
| `StringCommands.SetIfAbsent` | internal/command/strings.go:118-213 | the NX path stores exactly when the key is not live, reclaiming stale items |
| `StringCommands.Overwrite` | internal/command/strings.go:268-314 | a plain string write replaces a key of any type and sets or clears its expiry |
| `StringCommands.HandleSetNX` | internal/command/strings.go:218-248 | SETNX stores exactly when the key is not live, although it leaves stale items of an expired collection behind the String |
| `StringCommands.HandleSetEx` | internal/command/strings.go:254-314 | SETEX and PSETEX are SET with the parsed expiry, errors in the order the code checks them |
| `StringCommands.HandleGetSet` | internal/command/strings.go:321-354 | GETSET answers the old string, stores the new one and clears the expiry |
| `StringCommands.HandleStrlen` | internal/command/strings.go:664-682 | STRLEN is the length of the stored string, 0 for an absent key |
| `StringCommands.HandleGetRange` | internal/command/strings.go:690-720 | GETRANGE selects the substring the specification defines, errors in the order the code checks them |
| `StringCommands.RangeBoundsSelect` | internal/command/strings.go:728-758 | the clamped bounds are in range and select the inclusive window, or the first byte in the one corner where Redis differs from a window |
| `StringCommands.RmwString` | internal/command/strings_rmw.go:156-194 | in a serial run the loop never exhausts its retries and needs a second attempt exactly for an expired String; it stores what the callback computes from the live value and keeps the expiry |
| `StringCommands.HandleAppend` | internal/command/strings_rmw.go:202-226 | APPEND concatenates, keeps the expiry and answers the length; an oversized result writes nothing |
| `StringCommands.HandleSetRange` | internal/command/strings_rmw.go:236-308 | SETRANGE pads with zero bytes, overwrites from the offset and keeps the tail; an empty value writes nothing |
| `StringCommands.FilledIsOverwritten` | internal/command/strings_rmw.go:293-300 | the buffer filled byte by byte is padding, prefix, value and tail |
| `CounterCommands.AddToKey` | internal/command/strings.go:586-608 | INCR and DECR add to the stored integer, an absent or expired key counting as 0, keep the expiry, and fail without a write on text or overflow |
| `CounterCommands.HandleIncrBy` | internal/command/strings.go:552-576 | INCRBY and DECRBY add the parsed or negated argument |
| `CounterCommands.DecrBySubtractsUnlessLeast` | internal/command/strings.go:561-576 | DECRBY answers the difference, or the overflow error exactly when it leaves int64, for every argument but the least int64; that one is added, and accepted exactly when the stored integer is not negative |
| `CounterCommands.OverflowGuardIsExact` | internal/storage/store_strings.go:94-97 | the int64 guard fires exactly when the sum leaves int64 |
| `CounterCommands.HandleHIncrBy` | internal/command/hashes.go:569-597 | HINCRBY adds to the field, counts a new field once, and fails without a write on text or overflow |
| `CounterCommands.IncrField` | internal/storage/store_hashes.go:159-208 | alone on the key the loop lands its first attempt and reports a new field exactly when there was none |
| `KeyCommands.HandleDel` | internal/command/keys.go:132-161 | DEL removes each named key, reclaims expired ones, and counts the live ones |
| `KeyCommands.HandleExists` | internal/command/keys.go:168-186 | EXISTS counts live keys, repetitions included |
| `KeyCommands.HandleType` | internal/command/keys.go:191-206 | TYPE is the live key's type |
| `KeyCommands.HandleExpire` | internal/command/keys.go:268-315 | EXPIRE, EXPIREAT, PEXPIRE and PEXPIREAT record the resolved expiry, or delete the key when it is not in the future |
| `KeyCommands.HandleTtl` | internal/command/keys.go:418-442 | TTL and PTTL answer the remaining time, -1 without expiry, -2 without key |
| `KeyCommands.HandlePersist` | internal/command/keys.go:448-469 | PERSIST clears an expiry and says whether there was one |
| `Expiry.ResolveIsExact` | internal/command/keys.go:335-399 | for every int64 argument a resolved expiry is in the future exactly when the requested deadline is and fits int64 milliseconds, and is then the deadline rounded down, but at least the next second |
| `Expiry.NoOverflow` | internal/command/keys.go:353-370 | no int64 intermediate of the resolution overflows |
| `HashCommands.HandleHSet` | internal/command/hashes.go:106-134 | HSET stores the pairs, the last value of a repeated field winning, and answers the growth |
| `HashCommands.SplitHashPairs` | internal/command/hashes.go:178-190 | fields, values and the resulting map of an argument list |
| `HashCommands.HandleHSetNX` | internal/command/hashes.go:196-220 | HSETNX stores exactly a missing field |
| `HashCommands.HandleHGet` | internal/command/hashes.go:225-260 | HGET reads the field, or nothing |
| `HashCommands.HandleHDel` | internal/command/hashes.go:426-465 | HDEL removes the named fields, counts those present once, and deletes an emptied hash |
| `HashCommands.HandleCard` | internal/command/hashes.go:508-527 | HLEN, SCARD and LLEN read the stored count, which is the number of members |
| `Members.GrowRefines` | internal/command/datacmd.go:183-246 | claiming a collection, writing members and adding the reported growth to the count keeps the count exact and adds exactly those members |
| `Members.ShrinkRefines` | internal/command/datacmd.go:183-220 | deleting members and subtracting the reported number keeps the count exact and deletes the key exactly when none is left |
| `Members.OnlyStorableMatter` | internal/command/sets.go:158-210 | names too long to be stored can be skipped when removing: none can be present |
| `SetCommands.HandleSAdd` | internal/command/sets.go:131-152 | SADD adds the members and answers how many are new |
| `SetCommands.HandleSRem` | internal/command/sets.go:170-210 | SREM removes the members, answers how many were present, and deletes an emptied set |
| `SetCommands.HandleSIsMember` | internal/command/sets.go:215-250 | SISMEMBER is membership |
| `SetCommands.HandleSMove` | internal/command/sets.go:851-962 | SMOVE refines the two-key move; with equal keys it only asks for membership; type errors of the destination matter only for a live source |
| `SetCommands.LoadOperands` | internal/command/sets.go:623-691 | operands are read in order and an intersection stops, unchecked, at the first empty one |
| `SetCommands.Combine` | internal/command/sets.go:623-691 | the accumulator loops compute union, intersection and difference of any number of sets |
| `SetCommands.AlgebraIsUnique` | internal/command/sets.go:617-622 | membership by union, intersection or difference determines the result |
| `SetCommands.HandleSStore` | internal/command/sets.go:771-837 | SUNIONSTORE, SINTERSTORE and SDIFFSTORE replace the destination of any type by the result computed before, also when it is a source; an empty result deletes it |
| `ListCommands.HandlePush` | internal/command/lists.go:114-152 | LPUSH and RPUSH refine the push exactly when the arguments fit or the key is live; otherwise an empty list is left behind |
| `ListCommands.OversizedPushIsWrong` | internal/command/lists.go:114-152 | what an oversized push leaves under an absent key breaks the invariant and is visible: the key exists with length 0 |
| `ListCommands.HandlePushX` | internal/command/lists.go:170-199 | LPUSHX and RPUSHX push only onto a live list |
| `ListCommands.HandlePop` | internal/command/lists.go:215-251 | LPOP and RPOP remove one end and delete an emptied list |
| `ListCommands.HandleLIndex` | internal/command/lists.go:307-345 | LINDEX reads an element, negative indices from the tail, nothing out of range |
| `ListCommands.HandleLSet` | internal/command/lists2.go:75-135 | LSET replaces one element; errors in the order key, integer, range, size |
| `ListCommands.HandleLTrim` | internal/command/lists2.go:143-193 | LTRIM keeps the inclusive window and deletes an emptied list |
| `ListCommands.RankRangeIsWindow` | internal/storage/store_zsets.go:281-310 | the normalised bounds are in range and select exactly the inclusive window, or nothing |
| `ListCommands.LRemCompute` | internal/command/lists2.go:262-313 | for every int64 count, the least included, the flag-and-rebuild loops remove the first, the last or all occurrences as many as asked |
| `ListCommands.FlagHead` | internal/command/lists2.go:262-313 | the scan from the head keeps what removing occurrences one by one from the head keeps |
| `ListCommands.FlagTail` | internal/command/lists2.go:262-313 | the scan from the tail keeps what removing occurrences one by one from the tail keeps |
| `ListCommands.DropTailCap` | internal/command/lists2.go:250-296 | capping the number of removals at the length loses nothing |
| `ListCommands.HandleLRem` | internal/command/lists2.go:201-248 | LREM removes and counts occurrences and deletes an emptied list |
| `ListCommands.HandleLInsert` | internal/command/lists2.go:320-401 | LINSERT inserts before or after the first pivot, answering -1 without pivot and 0 without key |
| `ListCommands.HandleRPopLPush` | internal/command/lists2.go:414-499 | RPOPLPUSH refines the two-key move and, with equal keys, the rotation |
| `Ledger.LedgerHolds` | internal/command/datacmd.go:183-220 | at every point of every interleaving of adds and removes: count plus unwritten deltas plus discarded non-positive counts equals the number of member items |
| `Ledger.QuiescentCount` | internal/command/datacmd.go:183-220 | with all clients between commands the count is at least the number of members, no member lacks a meta item, and the count is exact if and only if no conditional deletion of the run removed a count below zero |
| `Ledger.DriftHappens` | internal/storage/store.go:194-199 | a run of two clients after which a key without members shows count 1 |
| `Ledger.DriftIsPermanent` | internal/storage/store.go:194-199 | once a negative count has been discarded every later quiescent state overstates the count |
| `Ledger.LastTouchDecides` | internal/command/datacmd.go:183-220 | over any interleaving a member is there exactly if the last write of its item added it |
| `Ledger.SerialEmptyKeyIsGone` | internal/storage/store.go:194-199 | without overlapping commands an idle key exists exactly as long as it has members |
| `Ledger.SerialRunsAreExact` | internal/command/datacmd.go:183-220 | without overlapping commands the count of an idle key is exact |
| `Rmw.RunsLinearise` | internal/storage/store_core.go:144-183 | for any clients, any update functions, interleaving and stale reads the value is the landed operations applied in commit order, each reply the one that serial application gives, and failed operations leave no trace |
| `Rmw.NoLostIncrement` | internal/storage/store_strings.go:70-115 | the stored integer is the initial value plus the deltas of the landed increments, and each reply is the running total at its commit |
| `Rmw.PureIncrRepliesAreConsecutive` | internal/storage/store_strings.go:70-115 | concurrent INCRs answer the consecutive integers, each exactly once |
| `Rmw.NewAtMostOnce` | internal/storage/store_hashes.go:159-208 | a new field is reported by at most one increment, the first to land, and only if the field was missing |
| `Rmw.AppendsLinearise` | internal/command/strings_rmw.go:156-226 | concurrent appends on a live String leave the initial value and every landed argument in commit order, each reply the length at its commit |
| `Rmw.AtMostFiftyAttempts` | internal/storage/store.go:81-90 | over any run no client makes a 51st attempt |
| `Rmw.ExhaustionNeedsFiftyCommits` | internal/storage/store.go:81-90 | with strong reads an operation gives up only after at least 50 value-changing commits by others between its first read and its last write |
| `CasLoop.IncrBy` | internal/storage/store_core.go:167-183 | the coded loop, for every sequence of observations and interfering writes: a landed increment is one write, the replaced number plus the delta; any other outcome writes nothing |
| `CasLoop.ValueItem.SetCas` | internal/storage/store_strings.go:62-68 | the conditional write lands exactly when the item still is what the caller saw |
| `Shutdown.AcceptedIsAccounted` | internal/meta/deleter.go:227-285 | at every point accepted keys are the processed ones, the one in hand and the queue, in order |
| `Shutdown.DropsOnlyWhenFull` | internal/meta/deleter.go:166-177 | as long as the keys offered fit the free slots none is dropped and all are accepted in order |
| `Shutdown.OfferedIsCounted` | internal/meta/deleter.go:166-177 | every key offered is accepted or counted as dropped |
| `Shutdown.ClosingAdmitsNobody` | internal/server/server.go:121-134 | once Drain has begun no dispatch becomes in-flight |
| `Shutdown.CleanShutdownLosesNothing` | cmd/redimos/assembly.go:410-420 | if Drain ended with nothing in flight and the worker exited after Stop, every accepted key was processed exactly once, in order, for good |
| `Shutdown.StopReturns` | internal/meta/deleter.go:198-205 | after a clean Drain and Stop the worker can always move and every step brings it closer to its exit |
| `Shutdown.DrainDecides` | internal/server/server.go:171-197 | at the moment the wait of Drain ends, however it ends: no continuation through Stop to the exit of the worker and beyond loses an accepted key if and only if no dispatch is in flight then |
| `Shutdown.ExitLosesNothingIffQuiet` | internal/meta/deleter.go:272-285 | once the worker has exited no continuation loses an accepted key if and only if nothing is queued and no dispatch is in flight |
| `Shutdown.TimedOutDrainLoses` | internal/server/server.go:178-197 | a dispatch that outlives the Drain timeout can lose the key it enqueues |
| `Shutdown.Deleter.Drain` | internal/meta/deleter.go:272-285 | the drain loop is a run of the protocol that processes exactly the queue, in order, and ends in the exit |
| `Shutdown.Deleter.Enqueue` | internal/meta/deleter.go:166-177 | the queue write is the protocol step: accepted below the capacity, dropped at it |
| `Decimal.ParseInt` | internal/command/args.go:95-150 | the accumulating loop answers v exactly for the int64 values v of which the argument is the canonical rendering |
| `Decimal.IntOfIsExact` | internal/command/args.go:81-94 | a token denotes v if and only if v fits int64 and the token is its shortest decimal rendering |
| `Decimal.GuardIsExact` | internal/command/args.go:124-133 | the uint64 guard fires exactly when the next accumulator value would overflow |
| `Decimal.RenderExamples` | internal/command/args.go:81-94 | the renderings of 0, 7, -120 and 1020 byte by byte |
| `PartitionKeys.EncodeExample` | internal/command/datacmd.go:38-44 | key a of database 12 is stored under 12:a |
| `PartitionKeys.EncodeInjective` | internal/command/datacmd.go:38-44 | no two pairs of database and key share a partition key |
| `PartitionKeys.DecodeEncode` | internal/command/datacmd.go:57-69 | decoding returns the key for the database that encoded it and fails for every other one |
| `PartitionKeys.EncodeDecode` | internal/command/datacmd.go:57-69 | a decoded partition key is the encoding of what was decoded |
| `Glob.StringMatchLen` | internal/command/glob.go:34-140 | for every pattern and string the matcher decides the token semantics, and terminates |
| `Glob.ScanClass` | internal/command/glob.go:57-104 | the class scan finds membership and end of a class, negation aside, for escapes, ranges in either order, unterminated classes and a trailing backslash |
| `GlobLaws.RangeClass` | internal/command/glob.go:57-104 | a range in a class matches exactly the bytes between its ends written out, both included, in either order, negated by a caret, with or without the closing bracket |
| `GlobLaws.RangeSpelledOut` | internal/command/glob.go:81-95 | a byte is in a range exactly if it is among the bytes of the range listed one by one |
| `GlobLaws.ListedClass` | internal/command/glob.go:57-104 | a class of plain bytes matches exactly one byte among them, or with a caret one that is not, closed or not |
| `GlobLaws.EscapedMember` | internal/command/glob.go:71-80 | a backslash makes the next byte a plain member; a lone one at the end of a class is none, at the end of a pattern itself |
| `GlobLaws.PrefixPattern` | internal/command/glob.go:34-56 | a quoted string followed by a star matches exactly what starts with it |
| `GlobLaws.Wildcards` | internal/command/glob.go:34-56 | ? matches the strings of one byte, * every string |
| `GlobLaws.MatchesConcat` | internal/command/glob.go:34-140 | a pattern in two parts matches exactly the strings that split accordingly |
| `GlobLaws.SpecialBytes` | internal/command/glob.go:34-120 | the bytes with a meaning are * ? [ ] ^ - and backslash |
| `Glob.EscapedMatchesOnlyItself` | internal/command/glob.go:110-118 | an escaped string matches itself and nothing else |
| `Bitfield.BfGet` | internal/command/bitfield.go:286-306 | a field reads as the bits of the zero-extended tape, sign-extended |
| `Bitfield.BfSet` | internal/command/bitfield.go:310-327 | exactly the bits of the field change, growing with zero bytes to the last one needed |
| `Bitfield.FieldOfWritten` | internal/command/bitfield.go:286-327 | what was written is read back |
| `Bitfield.ApplyBitfield` | internal/command/bitfield.go:250-282 | an operation list acts on the unbounded zero-extended tape |
| `Bitfield.GrowThenApply` | internal/command/bitfield.go:74-106 | growing first gives the same replies and bits, and the final length is that of the highest write even if every write fails; nothing is stored exactly if the key or that length exceeds its limit |
| `Bitfield.SameTapeSameRun` | internal/command/bitfield.go:250-282 | replies and bits do not depend on trailing zero bytes |
| `Bitfield.WritesAreRead` | internal/command/bitfield.go:258-281 | what a GET reads after SET or INCRBY, for every mode, width and argument: the argument or sum in range; out of range the nearest bound, the congruent number, or under FAIL nothing changed and nil; and which value is the reply |
| `Bitfield.GetReads` | internal/command/bitfield.go:256-257 | GET answers its field and changes nothing |
| `Bitfield.OpsInOrder` | internal/command/bitfield.go:250-282 | a list acts operation by operation: its second part runs on what its first part left |
| `Bitfield.OneOp` | internal/command/bitfield.go:250-282 | a list of one operation answers and leaves what the operation does |
| `Bitfield.TapeIsBigEndian` | internal/command/bitfield.go:286-306 | bit i of the tape is the bit of weight 2^(7 - i mod 8) of byte i / 8, clear past the end |
| `Bitfield.FieldConcat` | internal/command/bitfield.go:286-306 | a field is its upper part followed by its lower part, most significant bit first |
| `Bitfield.BytesForIsLeast` | internal/command/bitfield.go:310-315 | a write needs the fewest bytes that hold its last bit |
| `Bitfield.DecodeIsTwosComplement` | internal/command/bitfield.go:301-306 | decoding is two's complement for every width up to i64 and u63, and lands in the type's range |
| `Bitfield.WrapIsUnique` | internal/command/bitfield.go:331-380 | WRAP stores the only number of the range congruent to the argument |
| `Bitfield.OverflowModes` | internal/command/bitfield.go:331-380 | FAIL answers nothing exactly out of range, SAT stores the nearest bound, and all modes store an argument in range |
| `Bitfield.IncrByRepliesWhatGetReads` | internal/command/bitfield.go:267-275 | an INCRBY answers what a following GET of the field answers |
| `Bitfield.SetThenGet` | internal/command/bitfield.go:258-266 | a SET answers the old field and a following GET the clamped argument |
| `HyperLogLog.SetThenGet` | internal/command/hll.go:328-350 | writing a 6-bit register reads back and leaves every other register intact, across byte borders |
| `HyperLogLog.PackingIsBijective` | internal/command/hll.go:328-350 | 12288 bytes and 16384 registers determine each other |
| `HyperLogLog.RegisterBits` | internal/command/hll.go:328-337 | register r is bits 6r to 6r + 5 of the bytes, least significant bit first |
| `HyperLogLog.HashIsUpperThenIndex` | internal/command/hll.go:314-318 | the hash is 16384 times its upper part plus the register index |
| `HyperLogLog.HashBits` | internal/command/hll.go:314-318 | bit by bit: index bits are the low fourteen bits of the hash, the upper part the rest |
| `HyperLogLog.DenseSetRegister` | internal/command/hll.go:339-350 | the in-place write is the register update |
| `HyperLogLog.DenseGetRegister` | internal/command/hll.go:328-337 | the read across two bytes is the register |
| `HyperLogLog.HllPatLen` | internal/command/hll.go:314-326 | the pattern length is one plus the clear low bits above the index, always in 1..51 |
| `HyperLogLog.HllAdd` | internal/command/hll.go:294-301 | one register is raised to the element's rank, and growth is reported |
| `HyperLogLog.HllMergeInto` | internal/command/hll.go:304-310 | the in-place merge is the register-wise maximum |
| `PfCommands.PfAdd` | internal/command/hll.go:138-181 | for every sequence of reads and interfering writes: a landed PFADD is one write, of the elements added to the base its last attempt read; it answers 1 exactly if some attempt, lost or landed, created the key or grew a register; any other outcome leaves no write, and the foreign-String and size errors are as in the source |
| `PfCommands.AnswerIsSerialIff` | internal/command/hll.go:138-181 | the reply is that of the landed attempt alone, as a serial order gives, if and only if the landed attempt made a change or no lost attempt did; always when all attempts read the same base, as in a serial run |
| `PfCommands.LostAttemptAnswers` | internal/command/hll.go:138-181 | two PFADDs of the same elements on an absent key can both answer 1 |
| `PfCommands.AnswersAsAtFirstRead` | internal/command/hll.go:138-181 | while other writers only add and merge, the reply is the one PFADD would have given alone at its first read |
| `PfCommands.RaiseAllCovers` | internal/command/hll.go:157-161 | adding elements only raises registers and changes none exactly if every element was covered |
| `PfCommands.StoredSummarises` | internal/command/hll.go:138-181 | what PFADD stores summarises the old set and the added elements |
| `PfCommands.HeaderIsHYLL` | internal/command/hll.go:288-292 | a stored HyperLogLog is exactly 12304 bytes beginning with HYLL and 0 |
| `PfCommands.StoredKeepsHeader` | internal/command/hll.go:138-165 | the sixteen header bytes of a stored one are kept |
| `PfCommands.AddAll` | internal/command/hll.go:157-161 | the loop over the elements adds them all in place and notes growth exactly |
| `PfCommands.PfMerge` | internal/command/hll.go:220-277 | errors of the sources in order, then of the destination, then the size guard; otherwise the destination summarises the union of all the sets |
| `PfCommands.ReadSources` | internal/command/hll.go:224-246 | the sources are read in order, missing ones skipped, and the first that is no HyperLogLog decides the error |
| `HyperLogLog.SummaryIsUnique` | internal/command/hll.go:294-301 | registers depend on the set of elements alone |
| `HyperLogLog.MergeSummarisesUnion` | internal/command/hll.go:304-310 | merging the registers of two sets gives the registers of their union |
| `HyperLogLog.MergeAssociates` | internal/command/hll.go:304-310 | merging is associative |
| `HyperLogLog.MergeCommutes` | internal/command/hll.go:304-310 | merging is commutative |
| `HyperLogLog.MergeIdempotent` | internal/command/hll.go:304-310 | merging is idempotent |
| `Geohash.DeinterleaveInterleave` | internal/command/geohash.go:88-134 | deinterleaving inverts interleaving for all pairs of 32-bit words |
| `Geohash.InterleaveDeinterleave` | internal/command/geohash.go:88-134 | interleaving inverts deinterleaving for all 64-bit words |
| `Geohash.BitPositions` | internal/command/geohash.go:88-108 | bit 2i is bit i of x and bit 2i+1 is bit i of y |
| `Geohash.FiftyTwoBits` | internal/command/geohash.go:88-108 | the result fits 52 bits if and only if both inputs fit 26 |
| `Geohash.EvenBitsAreLatitude` | internal/command/geohash.go:26-37 | even bits of the hash are those of the latitude cell, odd bits those of the longitude cell |
| `Geohash.CellHolds` | internal/command/geohash.go:26-37 | a coordinate lies in its cell, one of 2^26 equal parts of the range counted from the lower end |
| `Geohash.ClampIsNearest` | internal/command/geohash.go:26-37 | clamping gives the nearest latitude of the range |
| `Geohash.EncodeDecode` | internal/command/geohash.go:26-49 | encoding a decoded cell centre returns the hash, for every 52-bit hash |
| `Geohash.DecodeIsNear` | internal/command/geohash.go:26-49 | decoding an encoded position gives a point at most half a cell away on each axis |
| `Geohash.FitsBelowUpperEnds` | internal/command/geohash.go:26-37 | the hash fits 52 bits, and decodes into the range, if and only if the position lies strictly below both upper range ends |
| `ScanRegistry.Registry.Save` | internal/scan/registry.go:117-137 | saving refines the abstract LRU: a fresh non-zero cursor at the front, the back evicted beyond the capacity; map and list stay in step |
| `ScanRegistry.Registry.Load` | internal/scan/registry.go:156-181 | loading refines the abstract LRU: the token of an own unexpired cursor, which moves to the front; an expired one is dropped |
| `ScanRegistry.Registry.NewCursor` | internal/scan/registry.go:193-204 | the drawn cursor is neither zero nor in use |
| `ScanRegistry.Registry.RemoveElement` | internal/scan/registry.go:208-215 | map and list lose the same cursor |
| `ScanRegistry.KeptUntilCrowded` | internal/scan/registry.go:131-136 | over any run a cursor survives unless at least capacity other cursors were used or it was found expired |
| `ScanRegistry.AnswersOnlyFreshOwnTokens` | internal/scan/registry.go:156-181 | over every run from the empty registry a token is answered only if it was saved under that non-zero cursor for that instance less than the time to live ago |
| `ScanRegistry.ExpiredIsForgotten` | internal/scan/registry.go:170-173 | a load that finds the cursor expired forgets it for every later load |
| `ScanRegistry.ForeignLoadIsInert` | internal/scan/registry.go:174-176 | a load by another instance answers nothing and changes nothing |
| `ScanRegistry.LoadedTokenIsAnswered` | internal/scan/registry.go:156-181 | a successful load counts as a use: the token is answered again unless capacity others are used since |
| `ScanRegistry.SavedTokenIsAnswered` | internal/scan/registry.go:139-181 | a saved token is answered to its owner until it expires, unless at least capacity other cursors were used since |
| `Resp.DecodeEncode` | internal/resp/writer.go:27-79 | decoding an encoded reply tree returns it and what followed, keeping the null and empty forms distinct |
| `Resp.WireExamples` | internal/resp/writer.go:27-121 | the wire bytes of every kind of reply, tags and null forms included |
| `Resp.UniquelyDecodable` | internal/resp/writer.go:27-121 | two sequences of reply trees with the same bytes are the same |
| `Resp.PrefixFree` | internal/resp/writer.go:27-121 | no encoding is a prefix of another |
| `Resp.AppendBulkString` | internal/resp/writer.go:54-60 | the appended bytes are the encoding of the bulk string |
| `Resp.AppendBulkArray` | internal/resp/writer.go:94-103 | the loop appends the encoding of the array, or of the null array |
| `Resp.AppendOptBulkArray` | internal/resp/writer.go:111-121 | the loop appends the array of present bulk strings and nulls |
| `Resp.SanitizeErrText` | internal/resp/writer.go:267-285 | CR and LF become spaces, everything else is kept |
| `Resp.ErrUnknownCommand` | internal/resp/writer.go:260-262 | whatever bytes the client sent, the error body is one line |
| `ZAdd.FlagPath` | internal/command/zsets_add.go:140-241 | errors in the order of the code leave the key alone; otherwise pairs apply left to right, the reply is the growth, or with CH the number of pairs that altered the map, and the count stays exact, if and only if no named member is among the items an expired key has left behind |
| `ZAdd.FlagPathIsExact` | internal/command/zsets_add.go:179-234 | the same condition for what the path plans and writes, for all flags, pairs and leftovers |
| `ZAdd.FlagsProtect` | internal/command/zsets_add.go:190-213 | NX never touches a score that is there, XX never adds a member, and every new score comes from a pair |
| `ZAdd.OnePairAnswers` | internal/command/zsets_add.go:190-234 | with CH one pair answers 1 if it adds its member or changes its score, without CH only if it adds |
| `ZAdd.AnswersAddUp` | internal/command/zsets_add.go:190-234 | more pairs act on what the first ones left, and the answers add up |
| `ZAdd.FirstBadIsFirst` | internal/command/zsets_add.go:149-157 | the first argument that is no score decides the error |
| `ZAdd.RefusalOrder` | internal/command/zsets_add.go:101-177 | score first; then type before size with flags, size before type without |
| `ZAdd.LeftoverExamples` | internal/command/zsets_add.go:179-234 | over an expired key NX does not add a member it left behind, and CH adds it without counting it |
| `ZAdd.PlanWrites` | internal/command/zsets_add.go:179-213 | the in-command view after all pairs stands for pair-by-pair application |
| `ZAdd.FastPath` | internal/command/zsets_add.go:101-131 | errors in the order of the code leave the key alone; otherwise the path without flags agrees with pair-by-pair application, over an expired key too, and keeps the count exact |
| `ZAdd.ZSet.ZAdd` | internal/storage/store_zsets.go:44-64 | the bulk write overlays the last score of each member and reports the growth |
| `ZAdd.ParseZAddFlags` | internal/command/zsets_add.go:30-61 | flags up to the first other token; pair shape before NX with XX before the INCR pair count |

## Left out

- The DynamoDB client, the redimo fork, table creation, throttling, breakers, metrics, logging, sockets and the command table: I/O or wrappers around the modelled code. Store primitives are modelled by the contracts of the store interface.
- The fork's list index: elements are a sequence, so the assignment of score indices at both ends is not modelled.
- Hash fields and set members share one map per partition, as they share one part of the sort-key space; sorted sets are modelled only in `ZAdd.dfy`, apart from the keyspace.
- MGET, MSET, MSETNX, HMSET, HMGET, HGETALL, LRANGE, SMEMBERS, SPOP, SRANDMEMBER, the read-only set algebra, the SCAN family, bit and GEO commands and sorted-set commands in the keyspace: they compose the modelled primitives or need randomness, paging or floats.
- Case folding of option words, and the option grammar of SET and BITFIELD: handlers take parsed options.
- INCRBYFLOAT, HINCRBYFLOAT, float parsing and formatting, haversine distances and the HyperLogLog estimator depend on floating point; ZADD scores are any type with equality, geohash cells are over the reals.
- parseStoredInt in `internal/storage/store_strings.go:165-216` is the same loop as ParseInt and is modelled once, by `Decimal.ParseInt`.
- Asynchronous lazy deletion racing a recreation, the orphan sweeper and native TTL removal are best effort by design; `Shutdown.dfy` models the deleter's accounting only.
- Concurrent LSET, LTRIM, LREM, LINSERT, RPOPLPUSH, SMOVE and the STORE commands are documented as best effort and are modelled serially.
- Concurrent creation or expiry of a String under APPEND: `Rmw.dfy` assumes the meta item stays a live String.
- ZADD INCR: needs float addition; only its flag parsing is modelled.
- Rmw.ExhaustionNeedsFiftyCommits: assumes strong reads, which the bound is about.
- Keyspace.ServeAll: takes one clock reading per command, and does not continue after an oversized push onto an absent key, whose exact effect `Keyspace.Execute` states.
- Bitfield.BfGet: uses addition where the source shifts and ors.
- Bitfield.BfSet: uses addition and remainder where the source shifts and masks.
- Bitfield.DecodeIsTwosComplement: uses addition of 2^64 - 2^n where the source ors a sign mask, and remainder where it masks.
- HyperLogLog.HllPatLen: uses addition, division and remainder where the source ors the sentinel, shifts and masks.
- PfCommands.PfAdd: what the meta item shows at each attempt and whether the type claim succeeds are parameters.
- PfCommands.PfMerge: states one callback call over the base it read; its result depends on that base alone, so the retry loop is covered by `Rmw.RunsLinearise`.
- Geohash.EncodeDecode: is over the reals, while the source computes in float64.
- Geohash.DecodeIsNear: is over the reals, while the source computes in float64.
- Geohash.FitsBelowUpperEnds: is over the reals, while the source computes in float64.
