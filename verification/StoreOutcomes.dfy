/** What one call of `StoreValue` means to a reader of the tables, whatever it brings: which calls are refused, what an
    accepted one leaves in each of the four tables, and what it never touches. */
module StoreOutcomes {
  import opened Text
  import opened CacheKeys
  import opened BlockModel
  import opened PeerTransactions
  import opened BlockStore
  import opened Wrappers

  /** The key of `owner` vouches for what `db` brings: for its payload, or for its order to delete, which is signed over
      expiry date and sender. An order without an expiry date needs no signature. */
  predicate Authorised(env: Env, owner: string, db: DataBlock) {
    if db.transportPayload != "" then env.verify(owner, db.transportPayload, db.signature)
    else db.expireDate > 0 ==> env.verify(owner, Dec(db.expireDate) + db.peerId, db.signature)
  }

  /** The sender is the owner of the stored version; but a chat message is deleted by the peer it was sent to. */
  predicate SentByOwner(prior: DataBlock, db: DataBlock) {
    db.peerId == if db.blockType == "P2pChat" && db.transportPayload == "" then prior.businessNumber else prior.peerId
  }

  /** `db` may come after the stored version `prior`. */
  predicate Succeeds(env: Env, prior: DataBlock, db: DataBlock) {
    && SentByOwner(prior, db)
    && env.hasPublicKey(prior.peerId) && Authorised(env, prior.peerId, db)
    && db.createTimestamp > prior.createTimestamp
  }

  /** What a block must meet for its store not to be refused. */
  predicate Acceptable(s: Store, env: Env, db: DataBlock) {
    && db.blockId != "" && db.sliceNumber >= 1 && db.businessNumber != ""
    && (SliceOf(db) in s.rows ==> Succeeds(env, s.rows[SliceOf(db)], db))
  }

  /** A reader of the tables finds version `m` of its slice: every column as it came, the payload in the row or, when it
      is longer than 32768, in its file; the transaction keys are kept apart. */
  predicate Holds(s: Store, m: DataBlock) {
    && SliceOf(m) in s.rows
    && var row := s.rows[SliceOf(m)];
       && row.(transportPayload := m.transportPayload, transactionKeys := m.transactionKeys) == m
       && row.transactionKeys == []
       && row.transportPayload == (if |m.transportPayload| > 32768 then "" else m.transportPayload)
       && ReadPayload(s.files, row) == m.transportPayload
  }

  function OldSize(s: Store, db: DataBlock): nat {
    if SliceOf(db) in s.rows then s.rows[SliceOf(db)].sliceSize else 0
  }

  /** A first slice that comes with fewer slices than it had. */
  predicate Shrinks(s: Store, db: DataBlock) { db.sliceNumber == 1 && db.sliceSize < OldSize(s, db) }

  // ----- who may change what -----

  lemma AcceptableExactly(s: Store, env: Env, db: DataBlock)
    ensures Judge(s, env, db).Refuse? <==> !Acceptable(s, env, db)
    ensures Judge(s, env, db).Write? <==> Acceptable(s, env, db) && db.transportPayload != ""
    ensures Judge(s, env, db).Write? ==> Judge(s, env, db).oldSize == OldSize(s, db)
    ensures Judge(s, env, db).Delete? <==>
              Acceptable(s, env, db) && db.transportPayload == "" && db.sliceNumber == 1 && SliceOf(db) in s.rows
  {
  }

  /** A block that is not acceptable changes nothing and is answered with an error. An acceptable one without a payload
      changes nothing and is answered Ok, unless it names a first slice that is stored: then it deletes. */
  lemma UnacceptedChangesNothing(s: Store, env: Env, db: DataBlock)
    ensures !Acceptable(s, env, db) ==> StoreValue(s, env, db).store == s && StoreValue(s, env, db).result.Err?
    ensures Acceptable(s, env, db) && db.transportPayload == "" && (db.sliceNumber != 1 || SliceOf(db) !in s.rows) ==>
              StoreValue(s, env, db) == Outcome(s, Ok)
  {
    hide DropBlock;
    hide WriteSlice;
    AcceptableExactly(s, env, db);
  }

  /** So a stored slice is safe from whoever cannot sign for its owner. */
  lemma ForgedChangesNothing(s: Store, env: Env, db: DataBlock)
    requires SliceOf(db) in s.rows
    requires var owner := s.rows[SliceOf(db)].peerId;
             || (db.transportPayload != "" && !env.verify(owner, db.transportPayload, db.signature))
             || (db.transportPayload == "" && db.expireDate > 0 &&
                 !env.verify(owner, Dec(db.expireDate) + db.peerId, db.signature))
    ensures StoreValue(s, env, db).store == s && StoreValue(s, env, db).result.Err?
  {
    hide DropBlock;
    hide WriteSlice;
    UnacceptedChangesNothing(s, env, db);
  }

  /** Whatever changes or goes by a store is of the block the call names, and its sender succeeds the version that was
      stored of the slice the call names, which is the changed one itself or the first one. */
  lemma ChangesAreAuthorised(s: Store, env: Env, db: DataBlock, id: SliceId)
    requires id in s.rows
    requires var t := StoreValue(s, env, db).store; id !in t.rows || t.rows[id] != s.rows[id]
    ensures id.blockId == db.blockId && (id == SliceOf(db) || db.sliceNumber == 1)
    ensures SliceOf(db) in s.rows && Succeeds(env, s.rows[SliceOf(db)], db)
  {
    AcceptableExactly(s, env, db);
    hide Succeeds;
    hide Judge;
    if Judge(s, env, db).Write? {
      WriteRows(s, env, db, OldSize(s, db));
    }
    hide WriteSlice;
  }

  /** The same for a block that comes over the network, where it is the owner's name that counts. */
  lemma NetworkChangesAreOwned(s: Store, env: Env, db: DataBlock, id: SliceId)
    requires id in s.rows
    requires var t := PutOne(s, env, db).store; id !in t.rows || t.rows[id] != s.rows[id]
    ensures id.blockId == db.blockId && (id == SliceOf(db) || db.sliceNumber == 1)
    ensures SliceOf(db) in s.rows && SentByOwner(s.rows[SliceOf(db)], db)
  {
    WriteRows(s, env, db, OldSize(s, db));
    hide WriteSlice;
  }

  // ----- what a write leaves -----

  /** The rows and the files after a write: the slice itself, and of its block those that a shrink does not cut off. */
  lemma WriteRows(s: Store, env: Env, db: DataBlock, oldSize: nat)
    ensures var t := WriteSlice(s, env, db, oldSize).store;
            && (forall id :: id in t.rows <==>
                  && (id in s.rows || id == SliceOf(db))
                  && !(db.sliceNumber == 1 && db.sliceSize < oldSize && id.blockId == db.blockId && id.sliceNumber > db.sliceSize))
            && (forall id | id in t.rows :: t.rows[id] == if id == SliceOf(db) then RowOf(db) else s.rows[id])
            && t.files == SpillFile(s.files, db)
  {
    RowsWritten(s, env, db, oldSize);
    hide WriteSlice;
    hide RowOf;
    hide SpillFile;
  }

  lemma RowsWritten(s: Store, env: Env, db: DataBlock, oldSize: nat)
    ensures var t, rows := WriteSlice(s, env, db, oldSize).store, s.rows[SliceOf(db) := RowOf(db)];
            && t.rows == (if db.sliceNumber == 1 && db.sliceSize < oldSize then Truncate(rows, db.blockId, db.sliceSize) else rows)
            && t.files == SpillFile(s.files, db)
  {
    hide IndexPut;
    hide SaveKeys;
    hide RemoveEntries;
    hide PutVerdict;
    hide KeysVerdict;
    hide RemovalVerdict;
    hide RowOf;
    hide SpillFile;
    hide Truncate;
  }

  /** An accepted write can be read back, unless it is a first slice that counts nothing in place of one that counted
      something: it cuts itself off. */
  lemma WrittenIsHeldExactly(s: Store, env: Env, db: DataBlock)
    requires Acceptable(s, env, db) && db.transportPayload != ""
    ensures Holds(StoreValue(s, env, db).store, db) <==> !(Shrinks(s, db) && db.sliceSize == 0)
    ensures SliceOf(db) in StoreValue(s, env, db).store.rows <==> !(Shrinks(s, db) && db.sliceSize == 0)
  {
    AcceptableExactly(s, env, db);
    WriteRows(s, env, db, OldSize(s, db));
    hide Judge;
    hide WriteSlice;
    hide Acceptable;
  }

  /** The other rows and files after an accepted write: all stay, but for the slices of the block that a shrink cuts
      off. */
  lemma WriteKeepsOthers(s: Store, env: Env, db: DataBlock)
    requires Acceptable(s, env, db) && db.transportPayload != ""
    ensures var t := StoreValue(s, env, db).store;
            && (forall id | id != SliceOf(db) :: id in t.rows <==>
                  id in s.rows && !(Shrinks(s, db) && id.blockId == db.blockId && id.sliceNumber > db.sliceSize))
            && (forall id | id in t.rows && id != SliceOf(db) :: t.rows[id] == s.rows[id])
            && (forall name | name != ContentName(db.blockId, db.sliceNumber) ::
                  && (name in t.files <==> name in s.files)
                  && (name in s.files ==> t.files[name] == s.files[name]))
  {
    AcceptableExactly(s, env, db);
    WriteRows(s, env, db, OldSize(s, db));
    hide Judge;
    hide WriteSlice;
    hide Acceptable;
    hide ContentName;
  }

  predicate ValidKeys(db: DataBlock) {
    forall i | 0 <= i < |db.transactionKeys| ::
      db.transactionKeys[i].blockId == db.blockId && db.transactionKeys[i].peerId != ""
  }

  lemma {:induction false} ValidKeysExactly(db: DataBlock)
    ensures KeysVerdict(db.blockId, db.transactionKeys).Ok? <==> ValidKeys(db)
    decreases |db.transactionKeys|
  {
    if db.transactionKeys != [] {
      var tail := db.(transactionKeys := db.transactionKeys[1..]);
      ValidKeysExactly(tail);
      if ValidKeys(tail) && KeyValid(db.blockId, db.transactionKeys[0]) {
        forall i | 0 <= i < |db.transactionKeys|
          ensures db.transactionKeys[i].blockId == db.blockId && db.transactionKeys[i].peerId != ""
        {
          assert i > 0 ==> db.transactionKeys[i] == tail.transactionKeys[i - 1];
        }
      }
      if ValidKeys(db) {
        assert forall i | 0 <= i < |tail.transactionKeys| :: tail.transactionKeys[i] == db.transactionKeys[i + 1];
      }
    }
  }

  /** An accepted write answers Ok if and only if a first slice's keys are valid, the index takes the orders of a shrink,
      and it takes the block's own entry; an attachment has none. */
  lemma WriteAnswersOkExactly(s: Store, env: Env, db: DataBlock)
    requires Acceptable(s, env, db) && db.transportPayload != ""
    ensures StoreValue(s, env, db).result.Ok? <==>
              && (db.sliceNumber == 1 ==> ValidKeys(db))
              && (Shrinks(s, db) ==> IndexTakes(db))
              && (db.blockType == "ChatAttach" || IndexTakes(db))
  {
    AcceptableExactly(s, env, db);
    ValidKeysExactly(db);
    IndexTakesExactly(db, EntryFor(env, db));
    IndexTakesExactly(db, Tombstone(env, db, db.sliceSize + 1));
    hide Judge;
    hide Acceptable;
    hide ValidKeys;
    hide IndexTakes;
    hide PutVerdict;
    hide KeysVerdict;
    hide SaveKeys;
    hide IndexPut;
    hide RemoveEntries;
    hide RowOf;
    hide SpillFile;
    hide Truncate;
  }

  /** So an attachment is stored without the index, but a first slice that shrinks one still gives the index orders it
      does not know, and is answered with an error. */
  lemma AttachmentAnswersOkExactly(s: Store, env: Env, db: DataBlock)
    requires Acceptable(s, env, db) && db.transportPayload != "" && db.blockType == "ChatAttach"
    ensures StoreValue(s, env, db).result.Ok? <==> db.sliceNumber == 1 ==> ValidKeys(db) && !Shrinks(s, db)
    ensures StoreValue(s, env, db).store.entries == s.entries
  {
    AttachmentsAreUnknown();
    WriteAnswersOkExactly(s, env, db);
    AcceptableExactly(s, env, db);
    IndexTakesExactly(db, Tombstone(env, db, db.sliceSize + 1));
    hide Judge;
    hide Acceptable;
    hide ValidKeys;
    hide SaveKeys;
    hide KeysVerdict;
    hide PutVerdict;
  }

  // ----- the transaction keys -----

  /** How many keys come before the first invalid one. */
  function ValidPrefix(blockId: string, tks: seq<TransactionKey>): (n: nat)
    ensures n <= |tks|
    ensures forall i | 0 <= i < n :: tks[i].blockId == blockId && tks[i].peerId != ""
    ensures n < |tks| ==> tks[n].blockId != blockId || tks[n].peerId == ""
  {
    if tks == [] || tks[0].blockId != blockId || tks[0].peerId == "" then 0 else 1 + ValidPrefix(blockId, tks[1..])
  }

  /** The last of the keys that are for a peer. */
  function LastFor(tks: seq<TransactionKey>, peerId: string): (last: Option<TransactionKey>)
    ensures last.Some? ==> last.value in tks && last.value.peerId == peerId
    ensures last.None? ==> forall tk | tk in tks :: tk.peerId != peerId
  {
    if tks == [] then None
    else if tks[|tks| - 1].peerId == peerId then Some(tks[|tks| - 1])
    else LastFor(tks[..|tks| - 1], peerId)
  }

  lemma {:induction false} LastBehind(tk: TransactionKey, tks: seq<TransactionKey>, peerId: string)
    ensures LastFor([tk] + tks, peerId) ==
            if LastFor(tks, peerId).Some? then LastFor(tks, peerId)
            else if tk.peerId == peerId then Some(tk) else None
    decreases |tks|
  {
    var all := [tk] + tks;
    if tks == [] {
      assert all[..0] == [];
    } else {
      LastBehind(tk, tks[..|tks| - 1], peerId);
      assert all[..|all| - 1] == [tk] + tks[..|tks| - 1];
    }
  }

  /** A saved key is found again: under block and peer the table holds the last valid key that came for them, and under
      all others what it held. */
  lemma {:induction false} KeyIsFound(keys: KeyTable, blockId: string, tks: seq<TransactionKey>, id: KeyId)
    ensures var now, last := SaveKeys(keys, blockId, tks), LastFor(tks[..ValidPrefix(blockId, tks)], id.peerId);
            if id.blockId == blockId && last.Some? then id in now && now[id] == last.value
            else (id in now <==> id in keys) && (id in now ==> now[id] == keys[id])
    decreases |tks|
  {
    var n := ValidPrefix(blockId, tks);
    if n > 0 {
      KeyIsFound(keys[KeyId(blockId, tks[0].peerId) := tks[0]], blockId, tks[1..], id);
      LastBehind(tks[0], tks[1..][..n - 1], id.peerId);
      assert tks[..n] == [tks[0]] + tks[1..][..n - 1];
    }
  }

  lemma KeysWritten(s: Store, env: Env, db: DataBlock, oldSize: nat)
    ensures WriteSlice(s, env, db, oldSize).store.keys ==
            if db.sliceNumber == 1 && (db.sliceSize < oldSize ==> PutVerdict(Tombstone(env, db, db.sliceSize + 1)).Ok?)
            then SaveKeys(s.keys, db.blockId, db.transactionKeys) else s.keys
  {
    hide SaveKeys;
    hide PutVerdict;
    hide KeysVerdict;
    hide IndexPut;
    hide RemoveEntries;
    hide RowOf;
    hide SpillFile;
    hide Truncate;
  }

  /** The keys after an accepted write: only a first slice brings any, and none when the index refuses its shrink. */
  lemma KeysAfterWrite(s: Store, env: Env, db: DataBlock, id: KeyId)
    requires Acceptable(s, env, db) && db.transportPayload != ""
    ensures var now := StoreValue(s, env, db).store.keys;
            var last := LastFor(db.transactionKeys[..ValidPrefix(db.blockId, db.transactionKeys)], id.peerId);
            if db.sliceNumber == 1 && (Shrinks(s, db) ==> IndexTakes(db)) && id.blockId == db.blockId && last.Some?
            then id in now && now[id] == last.value
            else (id in now <==> id in s.keys) && (id in now ==> now[id] == s.keys[id])
  {
    AcceptableExactly(s, env, db);
    IndexTakesExactly(db, Tombstone(env, db, db.sliceSize + 1));
    KeyIsFound(s.keys, db.blockId, db.transactionKeys, id);
    KeysWritten(s, env, db, OldSize(s, db));
    hide Judge;
    hide Acceptable;
    hide IndexTakes;
    hide PutVerdict;
    hide SaveKeys;
    hide WriteSlice;
    hide LastFor;
    hide ValidPrefix;
  }

  // ----- the index -----

  lemma EntriesWritten(s: Store, env: Env, db: DataBlock, oldSize: nat)
    ensures var cut := db.sliceNumber == 1 && db.sliceSize < oldSize;
            var refused := cut && PutVerdict(Tombstone(env, db, db.sliceSize + 1)).Err?;
            var left := if cut && !refused then s.entries - EntryIds(env, db, db.sliceSize + 1, oldSize) else s.entries;
            WriteSlice(s, env, db, oldSize).store.entries ==
            if refused || (db.sliceNumber == 1 && KeysVerdict(db.blockId, db.transactionKeys).Err?)
               || db.blockType == TYPE_CHAT_ATTACH || PutVerdict(EntryFor(env, db)).Err?
            then left else left[EntryOf(EntryFor(env, db)) := EntryFor(env, db)]
  {
    hide SaveKeys;
    hide PutVerdict;
    hide KeysVerdict;
    hide EntryIds;
    hide RowOf;
    hide SpillFile;
    hide Truncate;
  }

  /** The index after an accepted write, entry by entry: the slice's own entry carries type, source, this node and
      timestamp, if the index takes it; a shrink takes out those of the slices it no longer counts; the others stay. */
  lemma EntryAfterWrite(s: Store, env: Env, db: DataBlock, e: EntryId)
    requires Acceptable(s, env, db) && db.transportPayload != ""
    ensures var now := StoreValue(s, env, db).store.entries;
            if e == EntryId(env.myself, db.blockId, db.sliceNumber, db.businessNumber) &&
               IndexTakes(db) && db.blockType != "ChatAttach" && (db.sliceNumber == 1 ==> ValidKeys(db))
            then
              && e in now
              && now[e] == PeerTransaction("DataBlock-" + db.blockType, db.peerId, env.myself, db.blockId, db.sliceNumber,
                                           db.businessNumber, db.createTimestamp, false)
            else
              && (e in now <==>
                    && e in s.entries
                    && !(Shrinks(s, db) && IndexTakes(db) && e.targetPeerId == env.myself && e.blockId == db.blockId
                         && e.businessNumber == db.businessNumber && db.sliceSize < e.sliceNumber <= OldSize(s, db)))
              && (e in now ==> now[e] == s.entries[e])
  {
    AcceptableExactly(s, env, db);
    ValidKeysExactly(db);
    IndexTakesExactly(db, EntryFor(env, db));
    IndexTakesExactly(db, Tombstone(env, db, db.sliceSize + 1));
    EntriesWritten(s, env, db, OldSize(s, db));
    hide Judge;
    hide Acceptable;
    hide ValidKeys;
    hide IndexTakes;
    hide PutVerdict;
    hide KeysVerdict;
    hide WriteSlice;
  }

  // ----- what a deletion leaves -----

  /** An accepted order to delete a stored first slice, slice by slice and entry by entry: no row and no key of the block
      is left; the files of the slices it counted are empty; and if the index takes the orders their entries are gone.
      All else stays. */
  lemma DeletedExactly(s: Store, env: Env, db: DataBlock)
    requires Acceptable(s, env, db) && db.transportPayload == "" && db.sliceNumber == 1 && SliceOf(db) in s.rows
    ensures var t, b, size := StoreValue(s, env, db).store, db.blockId, s.rows[SliceOf(db)].sliceSize;
            && (forall id :: id in t.rows <==> id in s.rows && id.blockId != b)
            && (forall id | id in t.rows :: t.rows[id] == s.rows[id])
            && (forall id :: id in t.keys <==> id in s.keys && id.blockId != b)
            && (forall id | id in t.keys :: t.keys[id] == s.keys[id])
            && (forall id: SliceId ::
                  var name := ContentName(id.blockId, id.sliceNumber);
                  if id.blockId == b && 1 <= id.sliceNumber <= size then name in t.files && t.files[name] == ""
                  else (name in t.files <==> name in s.files) && (name in s.files ==> t.files[name] == s.files[name]))
            && (forall e :: e in t.entries <==>
                  e in s.entries && !(IndexTakes(db) && e.targetPeerId == env.myself && e.blockId == b
                                      && e.businessNumber == db.businessNumber && 1 <= e.sliceNumber <= size))
            && (forall e | e in t.entries :: t.entries[e] == s.entries[e])
  {
    AcceptableExactly(s, env, db);
    IndexTakesExactly(db, Tombstone(env, db, 1));
    forall id: SliceId {
      NameListedExactly(db.blockId, s.rows[SliceOf(db)].sliceSize, id);
    }
    hide Judge;
    hide Acceptable;
    hide IndexTakes;
    hide PutVerdict;
    hide ContentName;
    hide ContentNames;
  }

  // ----- other blocks -----

  /** All that the tables hold for blocks other than `b`: rows, keys, entries and files. */
  ghost predicate SameBeside(s: Store, t: Store, b: string) {
    && (forall id: SliceId | id.blockId != b ::
          (id in t.rows <==> id in s.rows) && (id in s.rows ==> t.rows[id] == s.rows[id]))
    && (forall id: KeyId | id.blockId != b ::
          (id in t.keys <==> id in s.keys) && (id in s.keys ==> t.keys[id] == s.keys[id]))
    && (forall e: EntryId | e.blockId != b ::
          (e in t.entries <==> e in s.entries) && (e in s.entries ==> t.entries[e] == s.entries[e]))
    && forall id: SliceId | id.blockId != b ::
         var name := ContentName(id.blockId, id.sliceNumber);
         (name in t.files <==> name in s.files) && (name in s.files ==> t.files[name] == s.files[name])
  }

  lemma DropTouchesOneBlock(s: Store, env: Env, db: DataBlock, size: nat, unindex: bool)
    ensures SameBeside(s, DropBlock(s, env, db, size, unindex).store, db.blockId)
  {
    forall id: SliceId | id.blockId != db.blockId
      ensures ContentName(id.blockId, id.sliceNumber) !in ContentNames(db.blockId, size)
    {
      forall i: nat ensures ContentName(db.blockId, i) != ContentName(id.blockId, id.sliceNumber) {
        NamesApart(db.blockId, i, id.blockId, id.sliceNumber);
      }
    }
    hide PutVerdict;
    hide ContentName;
  }

  lemma {:induction false} SavingTouchesOneBlock(keys: KeyTable, blockId: string, tks: seq<TransactionKey>, id: KeyId)
    requires id.blockId != blockId
    ensures var now := SaveKeys(keys, blockId, tks);
            (id in now <==> id in keys) && (id in keys ==> now[id] == keys[id])
  {
    KeyIsFound(keys, blockId, tks, id);
  }

  lemma WriteTouchesOneBlock(s: Store, env: Env, db: DataBlock, oldSize: nat)
    ensures SameBeside(s, WriteSlice(s, env, db, oldSize).store, db.blockId)
  {
    WriteRows(s, env, db, oldSize);
    forall id: SliceId | id.blockId != db.blockId
      ensures ContentName(id.blockId, id.sliceNumber) != ContentName(db.blockId, db.sliceNumber)
    {
      NamesApart(id.blockId, id.sliceNumber, db.blockId, db.sliceNumber);
    }
    KeysElsewhere(s, env, db, oldSize);
    EntriesElsewhere(s, env, db, oldSize);
    hide WriteSlice;
    hide ContentName;
    hide RowOf;
  }

  lemma KeysElsewhere(s: Store, env: Env, db: DataBlock, oldSize: nat)
    ensures var now := WriteSlice(s, env, db, oldSize).store.keys;
            forall id: KeyId | id.blockId != db.blockId :: (id in now <==> id in s.keys) && (id in s.keys ==> now[id] == s.keys[id])
  {
    forall id: KeyId | id.blockId != db.blockId
      ensures var now := SaveKeys(s.keys, db.blockId, db.transactionKeys);
              (id in now <==> id in s.keys) && (id in s.keys ==> now[id] == s.keys[id])
    {
      SavingTouchesOneBlock(s.keys, db.blockId, db.transactionKeys, id);
    }
    KeysWritten(s, env, db, oldSize);
    hide SaveKeys;
    hide WriteSlice;
  }

  lemma EntriesElsewhere(s: Store, env: Env, db: DataBlock, oldSize: nat)
    ensures var now := WriteSlice(s, env, db, oldSize).store.entries;
            forall e: EntryId | e.blockId != db.blockId :: (e in now <==> e in s.entries) && (e in s.entries ==> now[e] == s.entries[e])
  {
    EntriesWritten(s, env, db, oldSize);
    hide WriteSlice;
    hide PutVerdict;
    hide KeysVerdict;
  }

  /** Neither write path touches anything of another block. */
  lemma OneBlockTouched(s: Store, env: Env, db: DataBlock)
    ensures SameBeside(s, StoreValue(s, env, db).store, db.blockId)
    ensures SameBeside(s, PutOne(s, env, db).store, db.blockId)
  {
    hide WriteSlice;
    hide DropBlock;
    hide SameBeside;
    SameAsItself(s, db.blockId);
    var size := OldSize(s, db);
    WriteTouchesOneBlock(s, env, db, size);
    WriteTouchesOneBlock(s, env, db, 0);
    DropTouchesOneBlock(s, env, db, size, true);
  }

  lemma SameAsItself(s: Store, b: string)
    ensures SameBeside(s, s, b)
  {
  }
}
