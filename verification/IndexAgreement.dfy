/** The peer-transaction index and the block table agree over every run of both write paths and the expiry sweep. */
module IndexAgreement {
  import opened BlockModel
  import opened PeerTransactions
  import opened BlockStore
  import opened WritePaths

  /** The block type and business number every slice of a block carries. */
  datatype Catalog = Catalog(kind: string -> string, business: string -> string)

  predicate Conforms(cat: Catalog, db: DataBlock) {
    && db.blockType == cat.kind(db.blockId) && db.blockType != TYPE_CHAT_ATTACH
    && db.businessNumber == cat.business(db.blockId) && IndexTakes(db)
  }

  function Head(blockId: string): SliceId { SliceId(blockId, 1) }

  function EntryIdOf(env: Env, cat: Catalog, id: SliceId): EntryId {
    EntryId(env.myself, id.blockId, id.sliceNumber, cat.business(id.blockId))
  }

  /** The entry carries the row's type, source and timestamp. */
  predicate Describes(entry: PeerTransaction, row: DataBlock) {
    && entry.transactionType == "DataBlock-" + row.blockType && entry.srcPeerId == row.peerId
    && entry.createTimestamp == row.createTimestamp && !entry.deleted
  }

  /** An entry for a slice exists, and describes it, exactly when the row exists. */
  ghost predicate Agrees(rows: Rows, entries: EntryTable, env: Env, cat: Catalog) {
    && (forall id | id in rows ::
          && EntryIdOf(env, cat, id) in entries
          && Describes(entries[EntryIdOf(env, cat, id)], rows[id]))
    && (forall e | e in entries ::
          SliceId(e.blockId, e.sliceNumber) in rows && e == EntryIdOf(env, cat, SliceId(e.blockId, e.sliceNumber)))
  }

  /** Slice `id` is one of those the first slice of its block counts. */
  predicate Counted(rows: Rows, id: SliceId) {
    id.sliceNumber >= 1 && Head(id.blockId) in rows && id.sliceNumber <= rows[Head(id.blockId)].sliceSize
  }

  ghost predicate Sized(rows: Rows) { forall id | id in rows :: Counted(rows, id) }

  ghost predicate Cataloged(rows: Rows, cat: Catalog) {
    WellKeyed(rows) && forall id | id in rows :: Conforms(cat, rows[id])
  }

  ghost predicate Tracked(s: Store, env: Env, cat: Catalog) {
    Cataloged(s.rows, cat) && Sized(s.rows) && Agrees(s.rows, s.entries, env, cat)
  }

  predicate KeysSaved(db: DataBlock) { KeysVerdict(db.blockId, db.transactionKeys).Ok? }

  /** When a write to agreeing tables leaves them in agreement. A later slice always does. A first slice that does not
      shrink its block must bring valid keys. One that does must find no slice stored beyond the old size, whose row it
      would cut off without its entry; and it must bring valid keys, unless it cuts its own row off as well: then an
      invalid key has to stop it before its entry is written. */
  predicate AgreesNext(rows: Rows, db: DataBlock, oldSize: nat) {
    db.sliceNumber != 1 ||
    if db.sliceSize < oldSize then NoneBeyond(rows, db.blockId, oldSize) && (KeysSaved(db) <==> db.sliceSize >= 1)
    else KeysSaved(db)
  }

  /** No slice of the block is stored under a number above the given size. */
  predicate NoneBeyond(rows: Rows, blockId: string, size: nat) {
    forall id | id in rows && id.blockId == blockId :: id.sliceNumber <= size
  }

  /** What a write must bring so that index and table agree after it and every stored slice is still counted by its
      first one, without which a later deletion leaves an entry behind. */
  predicate Fits(s: Store, db: DataBlock) {
    if db.sliceNumber != 1 then Counted(s.rows, SliceOf(db))
    else if db.sliceSize >= 1 then KeysSaved(db)
    else SliceOf(db) in s.rows && !KeysSaved(db)
  }

  lemma ConformingIsAccepted(env: Env, cat: Catalog, db: DataBlock)
    requires Conforms(cat, db)
    ensures Accepted(env, db)
  {
    IndexTakesExactly(db, EntryFor(env, db));
    forall i: nat ensures PutVerdict(Tombstone(env, db, i)).Ok? {
      IndexTakesExactly(db, Tombstone(env, db, i));
    }
  }

  lemma InEntryIds(env: Env, cat: Catalog, db: DataBlock, lo: nat, hi: nat, id: SliceId)
    requires db.businessNumber == cat.business(db.blockId)
    ensures EntryIdOf(env, cat, id) in EntryIds(env, db, lo, hi) <==>
            id.blockId == db.blockId && lo <= id.sliceNumber <= hi
  {
    if id.blockId == db.blockId && lo <= id.sliceNumber <= hi {
      assert EntryIdOf(env, cat, id) == EntryId(env.myself, db.blockId, id.sliceNumber, db.businessNumber);
    }
  }

  // ----- dropping a block -----

  /** Dropping a block keeps the agreement if and only if its first slice counts every stored slice of it: the entries
      of the others stay behind. */
  lemma DropAgreesExactly(rows: Rows, entries: EntryTable, env: Env, cat: Catalog, db: DataBlock, size: nat)
    requires Agrees(rows, entries, env, cat) && db.businessNumber == cat.business(db.blockId)
    requires Head(db.blockId) in rows && rows[Head(db.blockId)].sliceSize == size
    ensures Agrees(RemoveBlock(rows, db.blockId), entries - EntryIds(env, db, 1, size), env, cat) <==>
            forall id | id in rows && id.blockId == db.blockId :: Counted(rows, id)
  {
    if forall id | id in rows && id.blockId == db.blockId :: Counted(rows, id) {
      DropCountedAgrees(rows, entries, env, cat, db, size);
    }
  }

  lemma DropCountedAgrees(rows: Rows, entries: EntryTable, env: Env, cat: Catalog, db: DataBlock, size: nat)
    requires Agrees(rows, entries, env, cat) && db.businessNumber == cat.business(db.blockId)
    requires Head(db.blockId) in rows && rows[Head(db.blockId)].sliceSize == size
    requires forall id | id in rows && id.blockId == db.blockId :: Counted(rows, id)
    ensures Agrees(RemoveBlock(rows, db.blockId), entries - EntryIds(env, db, 1, size), env, cat)
  {
    var rows1, entries1 := RemoveBlock(rows, db.blockId), entries - EntryIds(env, db, 1, size);
    forall id | id in rows1
      ensures EntryIdOf(env, cat, id) in entries1
    {
      InEntryIds(env, cat, db, 1, size, id);
    }
    forall e | e in entries1
      ensures SliceId(e.blockId, e.sliceNumber) in rows1
    {
      var id := SliceId(e.blockId, e.sliceNumber);
      assert e == EntryIdOf(env, cat, id) && id in rows;
      InEntryIds(env, cat, db, 1, size, id);
    }
  }

  lemma DropKeepsAgreement(rows: Rows, entries: EntryTable, env: Env, cat: Catalog, db: DataBlock, size: nat)
    requires Sized(rows) && Agrees(rows, entries, env, cat)
    requires db.businessNumber == cat.business(db.blockId)
    requires Head(db.blockId) in rows && rows[Head(db.blockId)].sliceSize == size
    ensures Sized(RemoveBlock(rows, db.blockId))
    ensures Agrees(RemoveBlock(rows, db.blockId), entries - EntryIds(env, db, 1, size), env, cat)
  {
    forall id | id in RemoveBlock(rows, db.blockId) ensures Counted(RemoveBlock(rows, db.blockId), id) {
      assert Counted(rows, id);
    }
    DropCountedAgrees(rows, entries, env, cat, db, size);
  }

  lemma DropKeepsTracked(s: Store, env: Env, cat: Catalog, db: DataBlock, size: nat)
    requires Tracked(s, env, cat) && Conforms(cat, db)
    requires Head(db.blockId) in s.rows && s.rows[Head(db.blockId)].sliceSize == size
    ensures Tracked(DropBlock(s, env, db, size, true).store, env, cat)
    ensures DropBlock(s, env, db, size, true).result.Ok?
  {
    ConformingIsAccepted(env, cat, db);
    assert PutVerdict(Tombstone(env, db, 1)).Ok?;
    DropKeepsAgreement(s.rows, s.entries, env, cat, db, size);
  }

  // ----- writing a slice -----

  /** The size the first slice had before this write, as the write sees it. */
  predicate SizeSeen(rows: Rows, id: SliceId, oldSize: nat) {
    oldSize == if id in rows then rows[id].sliceSize else 0
  }

  /** The rows after a write. */
  function WrittenRows(rows: Rows, row: DataBlock, oldSize: nat): Rows {
    var rows1 := rows[SliceOf(row) := row];
    if row.sliceNumber == 1 && row.sliceSize < oldSize then Truncate(rows1, row.blockId, row.sliceSize) else rows1
  }

  /** The entries after a write, without the entry of the slice itself. */
  function CutEntries(entries: EntryTable, env: Env, db: DataBlock, oldSize: nat): EntryTable {
    if db.sliceNumber == 1 then entries - EntryIds(env, db, db.sliceSize + 1, oldSize) else entries
  }

  ghost predicate Accepted(env: Env, db: DataBlock) {
    && db.blockType != TYPE_CHAT_ATTACH
    && PutVerdict(EntryFor(env, db)).Ok? && forall i: nat :: PutVerdict(Tombstone(env, db, i)).Ok?
  }

  lemma HeadShape(s: Store, env: Env, db: DataBlock, oldSize: nat)
    requires forall i: nat :: PutVerdict(Tombstone(env, db, i)).Ok?
    ensures var h := HeadWork(s, env, db, oldSize);
            && h.store.rows == (if db.sliceSize < oldSize then Truncate(s.rows, db.blockId, db.sliceSize) else s.rows)
            && h.store.entries == s.entries - EntryIds(env, db, db.sliceSize + 1, oldSize)
            && h.result == KeysVerdict(db.blockId, db.transactionKeys)
  {
    assert PutVerdict(Tombstone(env, db, db.sliceSize + 1)).Ok?;
    if db.sliceSize >= oldSize {
      assert EntryIds(env, db, db.sliceSize + 1, oldSize) == {};
      assert s.entries - {} == s.entries;
    }
  }

  /** What a write does to the rows and the entries when the index refuses nothing. */
  lemma WriteShape(s: Store, env: Env, db: DataBlock, oldSize: nat)
    requires Accepted(env, db)
    ensures WriteSlice(s, env, db, oldSize).store.rows == WrittenRows(s.rows, RowOf(db), oldSize)
    ensures WriteSlice(s, env, db, oldSize).store.entries ==
            if db.sliceNumber == 1 && !KeysSaved(db) then CutEntries(s.entries, env, db, oldSize)
            else CutEntries(s.entries, env, db, oldSize)[EntryOf(EntryFor(env, db)) := EntryFor(env, db)]
  {
    if db.sliceNumber == 1 {
      HeadShape(s.(files := SpillFile(s.files, db), rows := s.rows[SliceOf(db) := RowOf(db)]), env, db, oldSize);
    }
  }

  lemma LaterWrite(rows: Rows, entries: EntryTable, env: Env, cat: Catalog, row: DataBlock, entry: PeerTransaction)
    requires Agrees(rows, entries, env, cat)
    requires EntryOf(entry) == EntryIdOf(env, cat, SliceOf(row)) && Describes(entry, row)
    ensures Agrees(rows[SliceOf(row) := row], entries[EntryOf(entry) := entry], env, cat)
  {
  }

  lemma LaterSized(rows: Rows, row: DataBlock)
    requires Sized(rows) && row.sliceNumber >= 2
    ensures Sized(rows[SliceOf(row) := row]) <==> Counted(rows, SliceOf(row))
  {
    var rows1 := rows[SliceOf(row) := row];
    forall id: SliceId ensures Counted(rows1, id) == Counted(rows, id) {
    }
    assert SliceOf(row) in rows1;
  }

  /** A first slice that shrinks its block cuts the same slices off from both tables. */
  lemma ShrinkAgrees(rows: Rows, entries: EntryTable, env: Env, cat: Catalog, db: DataBlock, row: DataBlock,
                     entry: PeerTransaction, oldSize: nat, saved: bool)
    requires Agrees(rows, entries, env, cat) && db.sliceNumber == 1 && db.sliceSize < oldSize
    requires NoneBeyond(rows, db.blockId, oldSize) && (saved <==> db.sliceSize >= 1)
    requires db.businessNumber == cat.business(db.blockId)
    requires SliceOf(row) == SliceOf(db) && row.sliceSize == db.sliceSize
    requires EntryOf(entry) == EntryIdOf(env, cat, SliceOf(db)) && Describes(entry, row)
    ensures Agrees(WrittenRows(rows, row, oldSize), WithOwn(CutEntries(entries, env, db, oldSize), entry, saved), env, cat)
  {
    var rows1, cut := WrittenRows(rows, row, oldSize), CutEntries(entries, env, db, oldSize);
    var entries1 := WithOwn(cut, entry, saved);
    forall id | id in rows1
      ensures EntryIdOf(env, cat, id) in entries1
      ensures Describes(entries1[EntryIdOf(env, cat, id)], rows1[id])
    {
      InEntryIds(env, cat, db, db.sliceSize + 1, oldSize, id);
    }
    forall e | e in entries1
      ensures SliceId(e.blockId, e.sliceNumber) in rows1
      ensures e == EntryIdOf(env, cat, SliceId(e.blockId, e.sliceNumber))
    {
      InEntryIds(env, cat, db, db.sliceSize + 1, oldSize, SliceId(e.blockId, e.sliceNumber));
    }
  }

  /** The entries after a write; with an invalid key the slice's own entry is not written. */
  function WithOwn(cut: EntryTable, entry: PeerTransaction, saved: bool): EntryTable {
    if saved then cut[EntryOf(entry) := entry] else cut
  }

  /** A slice stored beyond the old size loses its row to the cut and keeps its entry. */
  lemma BeyondDisagrees(rows: Rows, entries: EntryTable, env: Env, cat: Catalog, db: DataBlock, row: DataBlock,
                        entry: PeerTransaction, oldSize: nat, saved: bool, id: SliceId)
    requires Agrees(rows, entries, env, cat) && db.sliceNumber == 1 && db.sliceSize < oldSize
    requires db.businessNumber == cat.business(db.blockId)
    requires SliceOf(row) == SliceOf(db) && row.sliceSize == db.sliceSize
    requires id in rows && id.blockId == db.blockId && id.sliceNumber > oldSize
    ensures !Agrees(WrittenRows(rows, row, oldSize), WithOwn(CutEntries(entries, env, db, oldSize), entry, saved), env, cat)
  {
    var e := EntryIdOf(env, cat, id);
    InEntryIds(env, cat, db, db.sliceSize + 1, oldSize, id);
    assert e in WithOwn(CutEntries(entries, env, db, oldSize), entry, saved);
    assert id !in WrittenRows(rows, row, oldSize);
  }

  /** A first slice that counts nothing: a new row is not counted by itself, and an old one is cut off. */
  lemma EmptyHeadWrite(rows: Rows, row: DataBlock, oldSize: nat)
    requires row.sliceNumber == 1 && row.sliceSize == 0
    ensures oldSize == 0 ==> !Sized(WrittenRows(rows, row, oldSize))
    ensures oldSize > 0 ==> SliceOf(row) !in WrittenRows(rows, row, oldSize)
  {
    var rows1 := WrittenRows(rows, row, oldSize);
    if oldSize == 0 {
      assert SliceOf(row) in rows1 && !Counted(rows1, SliceOf(row));
    }
  }

  /** With an invalid key the entry of the slice itself is never written, so it misses the new timestamp. */
  lemma InvalidKeyWrite(rows: Rows, entries: EntryTable, env: Env, cat: Catalog, db: DataBlock, row: DataBlock, oldSize: nat)
    requires Agrees(rows, entries, env, cat) && SliceOf(row) == SliceOf(db) && db.sliceNumber == 1
    requires row.sliceSize >= 1 || row.sliceSize >= oldSize
    requires SliceOf(db) in rows ==> row.createTimestamp > rows[SliceOf(db)].createTimestamp
    ensures !Agrees(WrittenRows(rows, row, oldSize), CutEntries(entries, env, db, oldSize), env, cat)
  {
    var rows1 := WrittenRows(rows, row, oldSize);
    var e := EntryIdOf(env, cat, SliceOf(db));
    assert SliceOf(db) in rows1 && rows1[SliceOf(db)] == row;
    if e in entries {
      assert SliceId(e.blockId, e.sliceNumber) == SliceOf(db) && SliceOf(db) in rows;
      assert Describes(entries[e], rows[SliceOf(db)]);
    }
  }

  lemma WrittenStaysCataloged(rows: Rows, cat: Catalog, row: DataBlock, oldSize: nat)
    requires Cataloged(rows, cat) && Conforms(cat, row)
    ensures Cataloged(WrittenRows(rows, row, oldSize), cat)
  {
  }

  /** A write that passed the guards, to tables that agree, leaves them in agreement if and only if it is one of those
      above. */
  lemma WriteAgreesExactly(s: Store, env: Env, cat: Catalog, db: DataBlock, oldSize: nat)
    requires Cataloged(s.rows, cat) && Agrees(s.rows, s.entries, env, cat) && Conforms(cat, db)
    requires db.sliceNumber >= 1 && SizeSeen(s.rows, SliceOf(db), oldSize) && !Stale(s, db)
    ensures var t := WriteSlice(s, env, db, oldSize).store;
            && Cataloged(t.rows, cat)
            && (Agrees(t.rows, t.entries, env, cat) <==> AgreesNext(s.rows, db, oldSize))
  {
    var row := RowOf(db);
    ConformingIsAccepted(env, cat, db);
    WriteShape(s, env, db, oldSize);
    WrittenStaysCataloged(s.rows, cat, row, oldSize);
    TableAgreesExactly(s.rows, s.entries, env, cat, db, row, EntryFor(env, db), oldSize, KeysSaved(db));
  }

  /** From a store where besides every slice is counted by its first one, it leaves it so if and only if it fits. */
  lemma WriteKeepsTrackedExactly(s: Store, env: Env, cat: Catalog, db: DataBlock, oldSize: nat)
    requires Tracked(s, env, cat) && Conforms(cat, db)
    requires db.sliceNumber >= 1 && SizeSeen(s.rows, SliceOf(db), oldSize) && !Stale(s, db)
    ensures Tracked(WriteSlice(s, env, db, oldSize).store, env, cat) <==> Fits(s, db)
  {
    ConformingIsAccepted(env, cat, db);
    WriteShape(s, env, db, oldSize);
    WriteAgreesExactly(s, env, cat, db, oldSize);
    TableSizedExactly(s.rows, RowOf(db), oldSize);
    SizedReach(s.rows, SliceOf(db), oldSize);
  }

  /** In such a store nothing lies beyond a first slice's size, which is not 0. */
  lemma SizedReach(rows: Rows, id: SliceId, oldSize: nat)
    requires Sized(rows) && SizeSeen(rows, id, oldSize)
    ensures id.sliceNumber == 1 ==> NoneBeyond(rows, id.blockId, oldSize) && (id in rows <==> oldSize >= 1)
  {
    forall other | other in rows && other.blockId == id.blockId && id.sliceNumber == 1
      ensures other.sliceNumber <= oldSize
    {
      assert Counted(rows, other);
    }
    if id in rows {
      assert Counted(rows, id);
    }
  }

  /** The agreement on the two tables alone, for any row and entry of the slice. */
  lemma TableAgreesExactly(rows: Rows, entries: EntryTable, env: Env, cat: Catalog, db: DataBlock, row: DataBlock,
                           entry: PeerTransaction, oldSize: nat, saved: bool)
    requires Agrees(rows, entries, env, cat) && db.businessNumber == cat.business(db.blockId) && db.sliceNumber >= 1
    requires SliceOf(row) == SliceOf(db) && row.sliceSize == db.sliceSize
    requires SliceOf(db) in rows ==> row.createTimestamp > rows[SliceOf(db)].createTimestamp
    requires EntryOf(entry) == EntryIdOf(env, cat, SliceOf(db)) && Describes(entry, row)
    ensures Agrees(WrittenRows(rows, row, oldSize),
                   WithOwn(CutEntries(entries, env, db, oldSize), entry, db.sliceNumber != 1 || saved), env, cat) <==>
              (db.sliceNumber != 1 ||
               if db.sliceSize < oldSize then NoneBeyond(rows, db.blockId, oldSize) && (saved <==> db.sliceSize >= 1)
               else saved)
  {
    if db.sliceNumber >= 2 {
      LaterWrite(rows, entries, env, cat, row, entry);
    } else if db.sliceSize >= oldSize {
      if saved {
        NothingCut(entries, env, db, oldSize);
        LaterWrite(rows, entries, env, cat, row, entry);
      } else {
        InvalidKeyWrite(rows, entries, env, cat, db, row, oldSize);
      }
    } else if !NoneBeyond(rows, db.blockId, oldSize) {
      var id :| id in rows && id.blockId == db.blockId && id.sliceNumber > oldSize;
      BeyondDisagrees(rows, entries, env, cat, db, row, entry, oldSize, saved, id);
    } else if saved <==> db.sliceSize >= 1 {
      ShrinkAgrees(rows, entries, env, cat, db, row, entry, oldSize, saved);
    } else if !saved {
      InvalidKeyWrite(rows, entries, env, cat, db, row, oldSize);
    } else {
      EmptyHeadWrite(rows, row, oldSize);
      assert EntryOf(entry) in WithOwn(CutEntries(entries, env, db, oldSize), entry, saved);
    }
  }

  lemma NothingCut(entries: EntryTable, env: Env, db: DataBlock, oldSize: nat)
    requires db.sliceSize >= oldSize
    ensures CutEntries(entries, env, db, oldSize) == entries
  {
    assert EntryIds(env, db, db.sliceSize + 1, oldSize) == {};
  }

  /** Whether a write leaves every stored slice counted by its first one. */
  lemma TableSizedExactly(rows: Rows, row: DataBlock, oldSize: nat)
    requires Sized(rows) && row.sliceNumber >= 1 && SizeSeen(rows, SliceOf(row), oldSize)
    ensures Sized(WrittenRows(rows, row, oldSize)) <==>
            if row.sliceNumber != 1 then Counted(rows, SliceOf(row)) else row.sliceSize >= 1 || SliceOf(row) in rows
  {
    if row.sliceNumber >= 2 {
      LaterSized(rows, row);
    } else if row.sliceSize >= 1 || SliceOf(row) in rows {
      var rows1 := WrittenRows(rows, row, oldSize);
      forall id | id in rows1 ensures Counted(rows1, id) {
        if id != SliceOf(row) {
          assert id in rows && Counted(rows, id);
        } else if id in rows {
          assert Counted(rows, id);
        }
      }
    } else {
      EmptyHeadWrite(rows, row, oldSize);
    }
  }

  const PLAIN := Env("peer", _ => true, (_, _, _) => true)
  const COLLECTIONS := Catalog(_ => TYPE_COLLECTION, _ => "n")

  /** A slice of one collection block. */
  function Plain(sliceNumber: nat, sliceSize: nat, payload: string, ts: nat): DataBlock {
    DataBlock("b", sliceNumber, sliceSize, TYPE_COLLECTION, "n", "c", payload, "", "", [], ts, 0, 0, "p", "", STATUS_EFFECTIVE)
  }

  lemma PlainConforms(db: DataBlock)
    requires db.blockType == TYPE_COLLECTION && db.businessNumber == "n" && db.peerId == "c"
    ensures Conforms(COLLECTIONS, db) && TYPE_COLLECTION != TYPE_P2P_CHAT
  {
    assert TYPE_COLLECTION[1] == 'o' && TYPE_CHAT_ATTACH[1] == 'h' && TYPE_P2P_CHAT[0] == 'P';
    assert KindsOf(TransactionType(TYPE_COLLECTION)) == [KIND_SRC, KIND_TARGET];
  }

  /** Storing such a slice answers Ok and leaves the tables in agreement or not as said above. */
  lemma StorePlain(s: Store, sliceNumber: nat, sliceSize: nat, ts: nat) returns (t: Store)
    requires Cataloged(s.rows, COLLECTIONS) && Agrees(s.rows, s.entries, PLAIN, COLLECTIONS) && sliceNumber >= 1
    requires var id := SliceId("b", sliceNumber);
             id in s.rows ==> s.rows[id].createTimestamp < ts && s.rows[id].peerId == "c"
    ensures var db := Plain(sliceNumber, sliceSize, "text", ts);
            var oldSize := if SliceOf(db) in s.rows then s.rows[SliceOf(db)].sliceSize else 0;
            && StoreValue(s, PLAIN, db) == Outcome(t, Ok)
            && t.rows == WrittenRows(s.rows, db, oldSize) && Cataloged(t.rows, COLLECTIONS)
            && (Agrees(t.rows, t.entries, PLAIN, COLLECTIONS) <==> AgreesNext(s.rows, db, oldSize))
  {
    var db := Plain(sliceNumber, sliceSize, "text", ts);
    var oldSize := if SliceOf(db) in s.rows then s.rows[SliceOf(db)].sliceSize else 0;
    PlainConforms(db);
    assert Judge(s, PLAIN, db) == Write(oldSize);
    ConformingIsAccepted(PLAIN, COLLECTIONS, db);
    WriteShape(s, PLAIN, db, oldSize);
    WriteAnswers(s, PLAIN, db, oldSize);
    WriteAgreesExactly(s, PLAIN, COLLECTIONS, db, oldSize);
    t := WriteSlice(s, PLAIN, db, oldSize).store;
  }

  lemma WriteAnswers(s: Store, env: Env, db: DataBlock, oldSize: nat)
    requires Accepted(env, db) && KeysSaved(db)
    ensures WriteSlice(s, env, db, oldSize).result.Ok?
  {
    assert PutVerdict(Tombstone(env, db, db.sliceSize + 1)).Ok?;
  }

  /** Why the counting matters: a first slice of size 0 is stored and indexed, and the next deletion drops its row,
      answers Ok and leaves its entry. */
  lemma UncountedLeavesOrphan() returns (s: Store, t: Store)
    ensures StoreValue(EMPTY_STORE, PLAIN, Plain(1, 0, "text", 1)) == Outcome(s, Ok)
    ensures Agrees(s.rows, s.entries, PLAIN, COLLECTIONS)
    ensures StoreValue(s, PLAIN, Plain(1, 0, "", 2)) == Outcome(t, Ok)
    ensures t.rows == map[] && !Agrees(t.rows, t.entries, PLAIN, COLLECTIONS)
  {
    s := StorePlain(EMPTY_STORE, 1, 0, 1);
    var gone := Plain(1, 0, "", 2);
    PlainConforms(gone);
    assert Head("b") in s.rows && !Counted(s.rows, Head("b"));
    assert Judge(s, PLAIN, gone) == Delete(s.rows[Head("b")]);
    t := StoreValue(s, PLAIN, gone).store;
    DropAgreesExactly(s.rows, s.entries, PLAIN, COLLECTIONS, gone, 0);
    assert RemoveBlock(s.rows, "b") == map[];
  }

  /** And a shrink does the same with no deletion at all: slice 3 of a block of size 2 is stored and indexed; when the
      block shrinks to size 1 its row is cut off and its entry stays. */
  lemma UncountedThenShrink() returns (s: Store, t: Store, u: Store)
    ensures StoreValue(EMPTY_STORE, PLAIN, Plain(1, 2, "text", 1)) == Outcome(s, Ok)
    ensures StoreValue(s, PLAIN, Plain(3, 2, "text", 1)) == Outcome(t, Ok)
    ensures Agrees(s.rows, s.entries, PLAIN, COLLECTIONS) && Agrees(t.rows, t.entries, PLAIN, COLLECTIONS)
    ensures StoreValue(t, PLAIN, Plain(1, 1, "text", 2)) == Outcome(u, Ok)
    ensures SliceId("b", 3) in t.rows && SliceId("b", 3) !in u.rows && !Agrees(u.rows, u.entries, PLAIN, COLLECTIONS)
  {
    s := StorePlain(EMPTY_STORE, 1, 2, 1);
    assert s.rows == map[Head("b") := Plain(1, 2, "text", 1)];
    t := StorePlain(s, 3, 2, 1);
    assert t.rows[Head("b")] == Plain(1, 2, "text", 1);
    u := StorePlain(t, 1, 1, 2);
    assert SliceId("b", 3) in t.rows && !NoneBeyond(t.rows, "b", 2);
  }
}
