/** The direct write path and the network write path leave the same tables. */
module WritePaths {
  import opened BlockModel
  import opened PeerTransactions
  import opened BlockStore
  import opened StoreOutcomes

  /** What the direct path demands of a block before it looks at the tables. */
  predicate Addressed(db: DataBlock) { db.blockId != "" && db.sliceNumber >= 1 && db.businessNumber != "" }

  /** The signature check of the direct path passes wherever it is reached. */
  predicate SignatureValid(s: Store, env: Env, db: DataBlock) {
    SliceOf(db) in s.rows && OwnerAllowed(s.rows[SliceOf(db)], db) ==>
      env.hasPublicKey(s.rows[SliceOf(db)].peerId) && Authorised(env, s.rows[SliceOf(db)].peerId, db)
  }

  predicate Stale(s: Store, db: DataBlock) {
    SliceOf(db) in s.rows && db.createTimestamp <= s.rows[SliceOf(db)].createTimestamp
  }

  /** The receiver of a chat message orders its deletion with a timestamp that is not newer. */
  predicate StaleDeleteByReceiver(s: Store, db: DataBlock) {
    && Stale(s, db)
    && db.blockType == TYPE_P2P_CHAT && db.transportPayload == "" && db.sliceNumber == 1
    && s.rows[SliceOf(db)].businessNumber == db.peerId
    && s.rows[SliceOf(db)].peerId != db.peerId
  }

  /** `Select` keeps the existing value exactly when one of the values found is as new for the same slice. */
  lemma {:induction false} SelectFinds(db: DataBlock, existing: seq<DataBlock>)
    ensures Select(db, existing) == 1 <==>
            exists e :: e in existing && SliceOf(e) == SliceOf(db) && db.createTimestamp <= e.createTimestamp
    ensures Select(db, existing) == 0 || Select(db, existing) == 1
  {
    if existing != [] {
      SelectFinds(db, existing[1..]);
      assert existing == [existing[0]] + existing[1..];
    }
  }

  /** Whether `PutLocal` gets past `Select`. */
  lemma SelectSees(s: Store, db: DataBlock, found: seq<DataBlock>, key: Condition)
    requires WellKeyed(s.rows) && Lists(found, s.rows, key)
    ensures Select(db, LoadAll(s.files, found)) != 0 <==>
            Stale(s, db) && Matches(key, s.rows[SliceOf(db)])
  {
    var existing := LoadAll(s.files, found);
    SelectFinds(db, existing);
    if Select(db, existing) == 1 {
      var e :| e in existing && SliceOf(e) == SliceOf(db) && db.createTimestamp <= e.createTimestamp;
      var i :| 0 <= i < |existing| && existing[i] == e;
      assert SliceOf(found[i]) == SliceOf(db);
    }
    if Stale(s, db) && Matches(key, s.rows[SliceOf(db)]) {
      var row := s.rows[SliceOf(db)];
      var i :| 0 <= i < |found| && found[i] == row;
      assert existing[i] in existing && SliceOf(existing[i]) == SliceOf(db);
    }
  }

  lemma PutAllOfOne(s: Store, env: Env, db: DataBlock)
    ensures PutAll(s, env, [db]) == PutOne(s, env, db)
  {
    assert [db][..0] == [];
  }

  /** Under the block's own key the two paths always leave the same four tables, and the same answer unless the
      block is stale: then the network path keeps quiet where the direct path complains. */
  lemma WritePathsAgree(s: Store, env: Env, db: DataBlock, found: seq<DataBlock>)
    requires WellKeyed(s.rows) && Lists(found, s.rows, OfBlock(db.blockId))
    requires Addressed(db) && SignatureValid(s, env, db)
    ensures PutLocal(s, env, db, found).store == StoreValue(s, env, db).store
    ensures !Stale(s, db) ==> PutLocal(s, env, db, found).result == StoreValue(s, env, db).result
    ensures Stale(s, db) ==> PutLocal(s, env, db, found) == Outcome(s, Ok) && StoreValue(s, env, db).result.Err?
  {
    SelectSees(s, db, found, OfBlock(db.blockId));
    PutAllOfOne(s, env, db);
  }

  /** Under the owner's key they agree except for a stale deletion by the receiver: the rows of the sender are not
      found under the receiver's key, so nothing stops the deletion. */
  lemma OwnerKeyAgreesExactly(s: Store, env: Env, db: DataBlock, found: seq<DataBlock>)
    requires WellKeyed(s.rows) && Lists(found, s.rows, OfOwner(db.peerId))
    requires Addressed(db) && SignatureValid(s, env, db)
    ensures PutLocal(s, env, db, found).store == StoreValue(s, env, db).store <==> !StaleDeleteByReceiver(s, db)
  {
    SelectSees(s, db, found, OfOwner(db.peerId));
    PutAllOfOne(s, env, db);
    if StaleDeleteByReceiver(s, db) {
      assert SliceOf(db) !in PutOne(s, env, db).store.rows;
    }
  }

  /** A store where the two paths part: a message of peer "a" to peer "b" is erased, under b's key, by an order older
      than the message. */
  lemma OwnerKeyCanDisagree() returns (s: Store, env: Env, db: DataBlock, found: seq<DataBlock>)
    ensures WellKeyed(s.rows) && Lists(found, s.rows, OfOwner(db.peerId)) && Addressed(db) && SignatureValid(s, env, db)
    ensures PutLocal(s, env, db, found).store != StoreValue(s, env, db).store
  {
    var row := DataBlock("m", 1, 1, TYPE_P2P_CHAT, "b", "a", "text", "", "", [], 7, 9, 0, "p", "", STATUS_EFFECTIVE);
    db := row.(peerId := "b", transportPayload := "", createTimestamp := 3);
    s := EMPTY_STORE.(rows := map[SliceOf(row) := row]);
    env := Env("peer", _ => true, (_, _, _) => true);
    found := [];
    assert "a"[0] != "b"[0];
    OwnerKeyAgreesExactly(s, env, db, found);
  }

  /** An accepted deletion answers Ok if and only if there is no slice to take out of the index or the index takes the
      orders; its rows are gone either way. */
  lemma DeleteAnswersOkExactly(s: Store, env: Env, db: DataBlock)
    requires Judge(s, env, db).Delete?
    ensures StoreValue(s, env, db).result.Ok? <==> s.rows[SliceOf(db)].sliceSize == 0 || IndexTakes(db)
    ensures forall id | id in StoreValue(s, env, db).store.rows :: id.blockId != db.blockId
  {
    IndexTakesExactly(db, Tombstone(env, db, 1));
  }

  /** So deleting an attachment that counts a slice always answers with an error, after its rows are gone. */
  lemma AttachmentDeleteFails(s: Store, env: Env, db: DataBlock)
    requires Judge(s, env, db).Delete?
    requires db.blockType == TYPE_CHAT_ATTACH && s.rows[SliceOf(db)].sliceSize >= 1
    ensures StoreValue(s, env, db).result == Err("InvalidTransactionType")
    ensures forall id | id in StoreValue(s, env, db).store.rows :: id.blockId != db.blockId
    ensures StoreValue(s, env, db).store.entries == s.entries
  {
    AttachmentsAreUnknown();
    DeleteAnswersOkExactly(s, env, db);
  }

  /** A store and a deletion for which that happens. */
  lemma SomeDeleteFails() returns (s: Store, env: Env, db: DataBlock)
    ensures WellKeyed(s.rows) && Judge(s, env, db).Delete?
    ensures StoreValue(s, env, db).result.Err? && SliceOf(db) in s.rows && SliceOf(db) !in StoreValue(s, env, db).store.rows
  {
    var row := DataBlock("m", 1, 1, TYPE_CHAT_ATTACH, "b", "a", "text", "", "", [], 3, 9, 0, "p", "", STATUS_EFFECTIVE);
    db := row.(transportPayload := "", createTimestamp := 7);
    s := EMPTY_STORE.(rows := map[SliceOf(row) := row]);
    env := Env("peer", _ => true, (_, _, _) => true);
    assert TYPE_CHAT_ATTACH[0] == 'C' && TYPE_P2P_CHAT[0] == 'P';
    AttachmentDeleteFails(s, env, db);
  }
}
