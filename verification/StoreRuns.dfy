/** What holds after any run of direct stores, network stores and expiry sweeps, in any order. */
module StoreRuns {
  import opened CacheKeys
  import opened BlockModel
  import opened PeerTransactions
  import opened BlockStore
  import opened StoreOutcomes
  import opened WritePaths
  import opened IndexAgreement
  import opened Expiry

  /** One operation, with the order in which the table lists the rows it looks up. */
  datatype Op =
    | Direct(db: DataBlock)
    | Network(key: Condition, db: DataBlock, found: seq<DataBlock>)
    | Expire(now: int, found: seq<DataBlock>)

  function Apply(s: Store, env: Env, op: Op): Store {
    match op
    case Direct(db) => StoreValue(s, env, db).store
    case Network(_, db, found) => PutLocal(s, env, db, found).store
    case Expire(_, found) => ExpireAll(s, env, found).store
  }

  function After(env: Env, ops: seq<Op>): Store {
    if ops == [] then EMPTY_STORE else Apply(After(env, ops[..|ops| - 1]), env, ops[|ops| - 1])
  }

  /** The listing an operation works on is one of the table it meets. */
  ghost predicate Legal(s: Store, op: Op) {
    match op
    case Direct(_) => true
    case Network(key, db, found) =>
      && Lists(found, s.rows, key) && db.blockId != "" && db.sliceNumber >= 1
      && (key == OfBlock(db.blockId) || key == OfOwner(db.peerId))
    case Expire(now, found) => Lists(found, s.rows, ExpiredBy(now))
  }

  ghost predicate LegalRun(env: Env, ops: seq<Op>) {
    ops == [] || (LegalRun(env, ops[..|ops| - 1]) && Legal(After(env, ops[..|ops| - 1]), ops[|ops| - 1]))
  }

  /** Whether an operation writes the slice it brings. */
  predicate Writes(s: Store, env: Env, op: Op) {
    match op
    case Direct(db) => Judge(s, env, db).Write?
    case Network(_, db, found) =>
      && db.transportPayload != "" && (SliceOf(db) in s.rows ==> s.rows[SliceOf(db)].peerId == db.peerId)
      && !Stale(s, db)
    case Expire(_, _) => false
  }

  /** The tables an operation can lead to: unchanged, a slice written, a block dropped, or a sweep. */
  lemma ApplyCases(s: Store, env: Env, op: Op)
    requires WellKeyed(s.rows) && Legal(s, op) && !op.Expire?
    ensures Writes(s, env, op) ==>
              exists n: nat :: SizeSeen(s.rows, SliceOf(op.db), n) && Apply(s, env, op) == WriteSlice(s, env, op.db, n).store
    ensures !Writes(s, env, op) ==>
              || Apply(s, env, op) == s
              || (op.db.sliceNumber == 1 && SliceOf(op.db) in s.rows &&
                  Apply(s, env, op) == DropBlock(s, env, op.db, s.rows[SliceOf(op.db)].sliceSize, true).store)
  {
    var n := if SliceOf(op.db) in s.rows then s.rows[SliceOf(op.db)].sliceSize else 0;
    assert SizeSeen(s.rows, SliceOf(op.db), n);
    if op.Network? {
      SelectSees(s, op.db, op.found, op.key);
      PutAllOfOne(s, env, op.db);
    }
  }

  // ----- the index -----

  /** Every write of the run fits, and every block keeps its type and business number. */
  ghost predicate Admissible(s: Store, env: Env, cat: Catalog, op: Op) {
    op.Expire? || (Conforms(cat, op.db) && (Writes(s, env, op) ==> Fits(s, op.db)))
  }

  ghost predicate AdmissibleRun(env: Env, cat: Catalog, ops: seq<Op>) {
    ops == [] || (AdmissibleRun(env, cat, ops[..|ops| - 1]) &&
                  Admissible(After(env, ops[..|ops| - 1]), env, cat, ops[|ops| - 1]))
  }

  lemma WritesIsFresh(s: Store, env: Env, op: Op)
    requires Writes(s, env, op) && Legal(s, op)
    ensures !Stale(s, op.db) && op.db.sliceNumber >= 1
  {
  }

  lemma StepKeepsTracked(s: Store, env: Env, cat: Catalog, op: Op)
    requires Tracked(s, env, cat) && Legal(s, op) && Admissible(s, env, cat, op)
    ensures Tracked(Apply(s, env, op), env, cat)
  {
    hide Apply;
    hide Fits;
    hide Writes;
    hide DropBlock;
    hide WriteSlice;
    TrackedIsWellKeyed(s, env, cat);
    match op
    case Expire(_, _) =>
      ExpireKeepsTracked(s, env, cat, op);
    case _ =>
      ApplyCases(s, env, op);
      if Writes(s, env, op) {
        var n: nat :| SizeSeen(s.rows, SliceOf(op.db), n) && Apply(s, env, op) == WriteSlice(s, env, op.db, n).store;
        WritesIsFresh(s, env, op);
        WriteKeepsTrackedExactly(s, env, cat, op.db, n);
      } else if Apply(s, env, op) != s {
        DropKeepsTracked(s, env, cat, op.db, s.rows[SliceOf(op.db)].sliceSize);
      }
  }

  lemma ExpireKeepsTracked(s: Store, env: Env, cat: Catalog, op: Op)
    requires Tracked(s, env, cat) && Legal(s, op) && op.Expire?
    ensures Tracked(Apply(s, env, op), env, cat)
  {
    hide Tracked;
    hide ExpireAll;
    SweepKeepsTracked(s, env, cat, op.found);
  }

  lemma TrackedIsWellKeyed(s: Store, env: Env, cat: Catalog)
    requires Tracked(s, env, cat)
    ensures WellKeyed(s.rows)
  {
  }

  lemma ExpireOneKeepsTracked(s: Store, env: Env, cat: Catalog, row: DataBlock)
    requires Tracked(s, env, cat) && SliceOf(row) in s.rows && s.rows[SliceOf(row)] == row && row.sliceNumber == 1
    ensures Tracked(ExpireOne(s, env, row).store, env, cat)
  {
    DropKeepsTracked(s, env, cat, row, row.sliceSize);
  }

  lemma {:induction false} SweepKeepsTracked(s: Store, env: Env, cat: Catalog, found: seq<DataBlock>)
    requires Tracked(s, env, cat)
    requires forall i | 0 <= i < |found| :: SliceOf(found[i]) in s.rows && s.rows[SliceOf(found[i])] == found[i]
    requires forall i, j | 0 <= i < j < |found| :: found[i] != found[j]
    ensures Tracked(ExpireAll(s, env, found).store, env, cat)
    decreases |found|
  {
    hide Tracked;
    hide DropBlock;
    if found != [] {
      var n := |found| - 1;
      var prefix, last := found[..n], found[n];
      SweepKeepsTracked(s, env, cat, prefix);
      TrackedIsWellKeyed(s, env, cat);
      SweepRemovesHeads(s, env, prefix);
      var p := ExpireAll(s, env, prefix);
      if p.result.Ok? && last.sliceNumber == 1 {
        forall b | b in Heads(prefix) ensures b != last.blockId {
          var i :| 0 <= i < |prefix| && prefix[i].sliceNumber == 1 && prefix[i].blockId == b;
          assert prefix[i] == found[i] && SliceOf(found[i]) == SliceId(b, 1);
        }
        assert last.blockId !in Heads(prefix);
        assert SliceOf(last) == Head(last.blockId) && p.store.rows[Head(last.blockId)] == last;
        ExpireOneKeepsTracked(p.store, env, cat, last);
      }
    }
  }

  /** Over every run, an index entry for a slice exists, with the row's type, source and timestamp, exactly when the row
      exists. */
  lemma {:induction false} IndexAgreesOverRuns(env: Env, cat: Catalog, ops: seq<Op>)
    requires LegalRun(env, ops) && AdmissibleRun(env, cat, ops)
    ensures Tracked(After(env, ops), env, cat)
    decreases |ops|
  {
    if ops != [] {
      var prefix := ops[..|ops| - 1];
      IndexAgreesOverRuns(env, cat, prefix);
      StepKeepsTracked(After(env, prefix), env, cat, ops[|ops| - 1]);
    }
  }

  // ----- the index, exactly -----

  /** Every stored slice of the blocks is counted by its first one. */
  ghost predicate AllCounted(rows: Rows, bs: set<string>) {
    forall id | id in rows && id.blockId in bs :: Counted(rows, id)
  }

  lemma InBlockEntries(rows: Rows, env: Env, cat: Catalog, bs: set<string>, id: SliceId)
    requires Cataloged(rows, cat) && HaveHeads(rows, bs)
    ensures EntryIdOf(env, cat, id) in BlockEntries(rows, env, bs) <==> id.blockId in bs && Counted(rows, id)
  {
    forall b | b in bs
      ensures EntryIdOf(env, cat, id) in EntryIds(env, HeadRow(rows, b), 1, HeadRow(rows, b).sliceSize) <==>
              id.blockId == b && Counted(rows, id)
    {
      assert Conforms(cat, HeadRow(rows, b)) && SliceOf(HeadRow(rows, b)) == SliceId(b, 1);
      InEntryIds(env, cat, HeadRow(rows, b), 1, HeadRow(rows, b).sliceSize, id);
    }
  }

  /** Removing whole blocks keeps the agreement if and only if every stored slice of theirs is counted. */
  lemma WithoutAgreesExactly(s: Store, env: Env, cat: Catalog, bs: set<string>)
    requires Cataloged(s.rows, cat) && Agrees(s.rows, s.entries, env, cat) && HaveHeads(s.rows, bs)
    ensures Agrees(Without(s, env, bs).rows, Without(s, env, bs).entries, env, cat) <==> AllCounted(s.rows, bs)
  {
    var gone := BlockEntries(s.rows, env, bs);
    forall id: SliceId ensures EntryIdOf(env, cat, id) in gone <==> id.blockId in bs && Counted(s.rows, id) {
      InBlockEntries(s.rows, env, cat, bs, id);
    }
    CutAgreesExactly(s.rows, s.entries, env, cat, bs, gone);
  }

  /** The same for any entries that belong to the counted slices of the blocks. */
  lemma CutAgreesExactly(rows: Rows, entries: EntryTable, env: Env, cat: Catalog, bs: set<string>, gone: set<EntryId>)
    requires Agrees(rows, entries, env, cat)
    requires forall id: SliceId :: EntryIdOf(env, cat, id) in gone <==> id.blockId in bs && Counted(rows, id)
    ensures Agrees(map id | id in rows && id.blockId !in bs :: rows[id], entries - gone, env, cat) <==> AllCounted(rows, bs)
  {
    hide Counted;
    var rows1 := map id | id in rows && id.blockId !in bs :: rows[id];
    forall id | id in rows && id.blockId in bs && !Counted(rows, id)
      ensures !Agrees(rows1, entries - gone, env, cat)
    {
      assert EntryIdOf(env, cat, id) in entries - gone && id !in rows1;
    }
  }

  lemma SweepAgreesExactly(s: Store, env: Env, cat: Catalog, now: int, found: seq<DataBlock>)
    requires Cataloged(s.rows, cat) && Agrees(s.rows, s.entries, env, cat) && Lists(found, s.rows, ExpiredBy(now))
    ensures var t := ExpireAll(s, env, found).store;
            && Cataloged(t.rows, cat)
            && (Agrees(t.rows, t.entries, env, cat) <==> AllCounted(s.rows, ExpiredBlocks(s.rows, now)))
  {
    ExpiryExact(s, env, now, found);
    forall b | b in ExpiredBlocks(s.rows, now) ensures Removable(HeadRow(s.rows, b)) {
      assert Conforms(cat, s.rows[SliceId(b, 1)]);
    }
    WithoutAgreesExactly(s, env, cat, ExpiredBlocks(s.rows, now));
  }

  /** Whether an operation drops the block it names. */
  predicate Drops(s: Store, env: Env, op: Op) {
    match op
    case Direct(db) => Judge(s, env, db).Delete?
    case Network(key, db, _) =>
      && db.transportPayload == "" && db.sliceNumber == 1 && SliceOf(db) in s.rows
      && OwnerAllowed(s.rows[SliceOf(db)], db) && !(Stale(s, db) && Matches(key, s.rows[SliceOf(db)]))
    case Expire(_, _) => false
  }

  lemma NoWriteNoDrop(s: Store, env: Env, op: Op)
    requires WellKeyed(s.rows) && Legal(s, op) && !op.Expire? && !Writes(s, env, op)
    ensures if Drops(s, env, op)
            then
              && op.db.sliceNumber == 1 && SliceOf(op.db) in s.rows
              && Apply(s, env, op) == DropBlock(s, env, op.db, s.rows[SliceOf(op.db)].sliceSize, true).store
            else Apply(s, env, op) == s
  {
    hide DropBlock;
    hide WriteSlice;
    if op.Network? {
      SelectSees(s, op.db, op.found, op.key);
      PutAllOfOne(s, env, op.db);
    }
  }

  /** When an operation on agreeing tables leaves them in agreement. */
  ghost predicate KeepsAgreement(s: Store, env: Env, op: Op) {
    match op
    case Expire(now, _) => AllCounted(s.rows, ExpiredBlocks(s.rows, now))
    case _ =>
      var oldSize := if SliceOf(op.db) in s.rows then s.rows[SliceOf(op.db)].sliceSize else 0;
      if Writes(s, env, op) then AgreesNext(s.rows, op.db, oldSize)
      else Drops(s, env, op) ==> AllCounted(s.rows, {op.db.blockId})
  }

  lemma WriteStepAgrees(s: Store, env: Env, cat: Catalog, op: Op)
    requires Cataloged(s.rows, cat) && Agrees(s.rows, s.entries, env, cat) && Legal(s, op)
    requires !op.Expire? && Conforms(cat, op.db) && Writes(s, env, op)
    ensures Cataloged(Apply(s, env, op).rows, cat)
    ensures Agrees(Apply(s, env, op).rows, Apply(s, env, op).entries, env, cat) <==> KeepsAgreement(s, env, op)
  {
    ApplyCases(s, env, op);
    WritesIsFresh(s, env, op);
    hide Apply;
    hide Writes;
    hide WriteSlice;
    hide AgreesNext;
    var n: nat :| SizeSeen(s.rows, SliceOf(op.db), n) && Apply(s, env, op) == WriteSlice(s, env, op.db, n).store;
    WriteAgreesExactly(s, env, cat, op.db, n);
  }

  lemma DropBlockAgrees(s: Store, env: Env, cat: Catalog, db: DataBlock)
    requires Cataloged(s.rows, cat) && Agrees(s.rows, s.entries, env, cat) && Conforms(cat, db)
    requires db.sliceNumber == 1 && SliceOf(db) in s.rows
    ensures var t := DropBlock(s, env, db, s.rows[SliceOf(db)].sliceSize, true).store;
            && Cataloged(t.rows, cat)
            && (Agrees(t.rows, t.entries, env, cat) <==> AllCounted(s.rows, {db.blockId}))
  {
    DropShape(s, env, cat, db);
    DropAgreesExactly(s.rows, s.entries, env, cat, db, s.rows[SliceOf(db)].sliceSize);
    hide DropBlock;
    hide Agrees;
    hide Counted;
    hide Conforms;
    assert forall id: SliceId :: id.blockId in {db.blockId} <==> id.blockId == db.blockId;
  }

  lemma DropShape(s: Store, env: Env, cat: Catalog, db: DataBlock)
    requires Conforms(cat, db) && SliceOf(db) in s.rows
    ensures var size := s.rows[SliceOf(db)].sliceSize;
            var t := DropBlock(s, env, db, size, true).store;
            t.rows == RemoveBlock(s.rows, db.blockId) && t.entries == s.entries - EntryIds(env, db, 1, size)
  {
    ConformingIsAccepted(env, cat, db);
    assert PutVerdict(Tombstone(env, db, 1)).Ok?;
  }

  lemma DropStepAgrees(s: Store, env: Env, cat: Catalog, op: Op)
    requires Cataloged(s.rows, cat) && Agrees(s.rows, s.entries, env, cat) && Legal(s, op)
    requires !op.Expire? && Conforms(cat, op.db) && !Writes(s, env, op)
    ensures Cataloged(Apply(s, env, op).rows, cat)
    ensures Agrees(Apply(s, env, op).rows, Apply(s, env, op).entries, env, cat) <==> KeepsAgreement(s, env, op)
  {
    NoWriteNoDrop(s, env, op);
    hide Apply;
    hide Writes;
    hide Drops;
    hide Cataloged;
    hide Agrees;
    hide AllCounted;
    hide Conforms;
    hide DropBlock;
    if Drops(s, env, op) {
      DropBlockAgrees(s, env, cat, op.db);
    }
  }

  /** One operation on agreeing tables, whichever it is: they agree after it if and only if it is one of these. */
  lemma StepAgreesExactly(s: Store, env: Env, cat: Catalog, op: Op)
    requires Cataloged(s.rows, cat) && Agrees(s.rows, s.entries, env, cat) && Legal(s, op)
    requires op.Expire? || Conforms(cat, op.db)
    ensures Cataloged(Apply(s, env, op).rows, cat)
    ensures Agrees(Apply(s, env, op).rows, Apply(s, env, op).entries, env, cat) <==> KeepsAgreement(s, env, op)
  {
    match op
    case Expire(now, found) =>
      hide AllCounted;
      hide ExpireAll;
      SweepAgreesExactly(s, env, cat, now, found);
    case _ =>
      if Writes(s, env, op) {
        WriteStepAgrees(s, env, cat, op);
      } else {
        DropStepAgrees(s, env, cat, op);
      }
  }

  /** Index and rows agree after every step of the run. */
  ghost predicate AgreesThroughout(env: Env, cat: Catalog, ops: seq<Op>) {
    && Agrees(After(env, ops).rows, After(env, ops).entries, env, cat)
    && (ops == [] || AgreesThroughout(env, cat, ops[..|ops| - 1]))
  }

  /** Every step of the run is one that keeps the agreement. */
  ghost predicate KeepsThroughout(env: Env, ops: seq<Op>) {
    ops == [] || (KeepsThroughout(env, ops[..|ops| - 1]) &&
                  KeepsAgreement(After(env, ops[..|ops| - 1]), env, ops[|ops| - 1]))
  }

  ghost predicate ConformingRun(cat: Catalog, ops: seq<Op>) {
    forall i | 0 <= i < |ops| :: ops[i].Expire? || Conforms(cat, ops[i].db)
  }

  /** Over every run of blocks with fixed type and business number, with no condition on sizes, keys or order: index and
      rows agree all the way if and only if every step meets its condition. */
  lemma {:induction false} AgreesThroughoutExactly(env: Env, cat: Catalog, ops: seq<Op>)
    requires LegalRun(env, ops) && ConformingRun(cat, ops)
    ensures AgreesThroughout(env, cat, ops) <==> KeepsThroughout(env, ops)
    ensures AgreesThroughout(env, cat, ops) ==> Cataloged(After(env, ops).rows, cat)
    decreases |ops|
  {
    if ops != [] {
      hide Legal;
      hide Apply;
      hide Conforms;
      hide Cataloged;
      hide Agrees;
      hide KeepsAgreement;
      var n := |ops| - 1;
      AgreesThroughoutExactly(env, cat, ops[..n]);
      if AgreesThroughout(env, cat, ops[..n]) {
        AgreesAtEnd(env, cat, ops[..n]);
        StepAgreesExactly(After(env, ops[..n]), env, cat, ops[n]);
      }
    }
  }

  lemma AgreesAtEnd(env: Env, cat: Catalog, ops: seq<Op>)
    requires AgreesThroughout(env, cat, ops)
    ensures Agrees(After(env, ops).rows, After(env, ops).entries, env, cat)
  {
  }

  // ----- the payloads -----

  /** The payload of the last accepted write of every slice. */
  function LastWritten(env: Env, ops: seq<Op>): map<SliceId, string> {
    if ops == [] then map[]
    else
      var prefix, op := ops[..|ops| - 1], ops[|ops| - 1];
      if Writes(After(env, prefix), env, op) then LastWritten(env, prefix)[SliceOf(op.db) := op.db.transportPayload]
      else LastWritten(env, prefix)
  }

  /** The payload of every row can be read, and it is the one recorded. */
  ghost predicate Readable(s: Store, recorded: map<SliceId, string>) {
    && WellKeyed(s.rows)
    && forall id | id in s.rows ::
         && id in recorded && recorded[id] != "" && ReadPayload(s.files, s.rows[id]) == recorded[id]
         && (s.rows[id].transportPayload == "" ==>
               ContentName(id.blockId, id.sliceNumber) in s.files &&
               s.files[ContentName(id.blockId, id.sliceNumber)] != "")
  }

  /** `t` keeps the files of `s` and has no row that `s` lacks. */
  ghost predicate Within(t: Store, s: Store) {
    t.files == s.files && forall id | id in t.rows :: id in s.rows && t.rows[id] == s.rows[id]
  }

  lemma HeadFootprint(s: Store, env: Env, db: DataBlock, oldSize: nat)
    ensures Within(HeadWork(s, env, db, oldSize).store, s)
  {
  }

  lemma WriteFootprint(s: Store, env: Env, db: DataBlock, oldSize: nat)
    ensures Within(WriteSlice(s, env, db, oldSize).store,
                   s.(files := SpillFile(s.files, db), rows := s.rows[SliceOf(db) := RowOf(db)]))
  {
    var s1 := s.(files := SpillFile(s.files, db), rows := s.rows[SliceOf(db) := RowOf(db)]);
    HeadFootprint(s1, env, db, oldSize);
    var h := HeadWork(s1, env, db, oldSize);
    assert Within(IndexWork(s1, env, db).store, s1) && Within(IndexWork(h.store, env, db).store, h.store);
  }

  lemma WriteKeepsReadable(s: Store, env: Env, db: DataBlock, oldSize: nat, recorded: map<SliceId, string>)
    requires Readable(s, recorded) && db.transportPayload != ""
    ensures Readable(WriteSlice(s, env, db, oldSize).store, recorded[SliceOf(db) := db.transportPayload])
  {
    WriteFootprint(s, env, db, oldSize);
    var t, rec := WriteSlice(s, env, db, oldSize).store, recorded[SliceOf(db) := db.transportPayload];
    forall id | id in t.rows
      ensures ReadPayload(t.files, t.rows[id]) == rec[id] != "" && SliceOf(t.rows[id]) == id
      ensures t.rows[id].transportPayload == "" ==>
                ContentName(id.blockId, id.sliceNumber) in t.files && t.files[ContentName(id.blockId, id.sliceNumber)] != ""
    {
      if id != SliceOf(db) && ContentName(id.blockId, id.sliceNumber) == ContentName(db.blockId, db.sliceNumber) {
        ContentNameInjective(id.blockId, id.sliceNumber, db.blockId, db.sliceNumber);
      }
    }
  }

  lemma ClearingKeepsReadable(s: Store, bs: set<string>, t: Store, cleared: set<string>, recorded: map<SliceId, string>)
    requires Readable(s, recorded)
    requires forall id | id in t.rows :: id in s.rows && t.rows[id] == s.rows[id] && id.blockId !in bs
    requires t.files == s.files + map name | name in cleared :: ""
    requires forall id: SliceId | id.blockId !in bs :: ContentName(id.blockId, id.sliceNumber) !in cleared
    ensures Readable(t, recorded)
  {
    forall id | id in t.rows
      ensures ReadPayload(t.files, t.rows[id]) == recorded[id]
    {
      assert ContentName(id.blockId, id.sliceNumber) !in cleared;
    }
  }

  lemma DropKeepsReadable(s: Store, env: Env, db: DataBlock, size: nat, unindex: bool, recorded: map<SliceId, string>)
    requires Readable(s, recorded)
    ensures Readable(DropBlock(s, env, db, size, unindex).store, recorded)
  {
    forall id: SliceId | id.blockId !in {db.blockId}
      ensures ContentName(id.blockId, id.sliceNumber) !in ContentNames(db.blockId, size)
    {
      NameOfOther(db.blockId, size, id.blockId, id.sliceNumber);
    }
    ClearingKeepsReadable(s, {db.blockId}, DropBlock(s, env, db, size, unindex).store, ContentNames(db.blockId, size), recorded);
  }

  lemma {:induction false} SweepKeepsReadable(s: Store, env: Env, found: seq<DataBlock>, recorded: map<SliceId, string>)
    requires Readable(s, recorded)
    ensures Readable(ExpireAll(s, env, found).store, recorded)
    decreases |found|
  {
    if found != [] {
      var prefix, last := found[..|found| - 1], found[|found| - 1];
      SweepKeepsReadable(s, env, prefix, recorded);
      DropKeepsReadable(ExpireAll(s, env, prefix).store, env, last, last.sliceSize, last.blockType != TYPE_CHAT_ATTACH, recorded);
    }
  }

  /** After any run, reading a stored slice gives the payload of the last accepted write of that slice, whether it is
      kept in the row or in a file, and a row without a payload always has its file. */
  lemma {:induction false} ReadsLastWritten(env: Env, ops: seq<Op>)
    requires LegalRun(env, ops)
    ensures Readable(After(env, ops), LastWritten(env, ops))
    decreases |ops|
  {
    if ops != [] {
      var prefix, op := ops[..|ops| - 1], ops[|ops| - 1];
      ReadsLastWritten(env, prefix);
      var s, recorded := After(env, prefix), LastWritten(env, prefix);
      match op
      case Expire(_, found) =>
        SweepKeepsReadable(s, env, found, recorded);
      case _ =>
        ApplyCases(s, env, op);
        if Writes(s, env, op) {
          var n: nat :| SizeSeen(s.rows, SliceOf(op.db), n) && Apply(s, env, op) == WriteSlice(s, env, op.db, n).store;
          WriteKeepsReadable(s, env, op.db, n, recorded);
        } else if Apply(s, env, op) != s {
          DropKeepsReadable(s, env, op.db, s.rows[SliceOf(op.db)].sliceSize, true, recorded);
        }
    }
  }

  // ----- who changed what -----

  /** What explains that an operation changed or removed a slice: a direct store for the slice, or for the first one of
      its block, that succeeds what was stored there, signature and all; a block from the network for one of these in the
      owner's name; or a sweep after the block's first slice had expired. */
  ghost predicate Explains(s: Store, env: Env, op: Op, id: SliceId) {
    match op
    case Direct(db) => Concerns(s, db, id) && Succeeds(env, s.rows[SliceOf(db)], db)
    case Network(_, db, _) => Concerns(s, db, id) && SentByOwner(s.rows[SliceOf(db)], db)
    case Expire(now, _) => SliceId(id.blockId, 1) in s.rows && s.rows[SliceId(id.blockId, 1)].expireDate <= now
  }

  predicate Concerns(s: Store, db: DataBlock, id: SliceId) {
    db.blockId == id.blockId && (SliceOf(db) == id || db.sliceNumber == 1) && SliceOf(db) in s.rows
  }

  /** A sweep removes slices of expired blocks alone. */
  lemma SweepIsExplained(s: Store, env: Env, now: int, found: seq<DataBlock>, id: SliceId)
    requires WellKeyed(s.rows) && Lists(found, s.rows, ExpiredBy(now)) && id in s.rows
    requires var t := ExpireAll(s, env, found).store; id !in t.rows || t.rows[id] != s.rows[id]
    ensures SliceId(id.blockId, 1) in s.rows && s.rows[SliceId(id.blockId, 1)].expireDate <= now
  {
    StoredHeads(found, s.rows);
    SweepExactly(s, env, found);
    ListedHeads(s.rows, now, found);
    ReachedHeads(found);
    hide ExpireAll;
    assert id.blockId in Heads(Reached(found));
  }

  lemma ChangeIsExplained(s: Store, env: Env, op: Op, id: SliceId)
    requires WellKeyed(s.rows) && Legal(s, op) && id in s.rows
    requires var t := Apply(s, env, op); id !in t.rows || t.rows[id] != s.rows[id]
    ensures Explains(s, env, op, id)
  {
    hide StoreValue;
    hide PutOne;
    hide Succeeds;
    hide SentByOwner;
    hide ExpireAll;
    hide Lists;
    hide LoadAll;
    match op
    case Direct(db) =>
      ChangesAreAuthorised(s, env, db, id);
    case Network(_, db, _) =>
      PutAllOfOne(s, env, db);
      NetworkChangesAreOwned(s, env, db, id);
    case Expire(now, found) =>
      SweepIsExplained(s, env, now, found, id);
  }

  /** At step `k` the slice still had the given row, and the operation explains what came of it. */
  ghost predicate ExplainedAt(env: Env, ops: seq<Op>, k: nat, id: SliceId, row: DataBlock)
    requires k < |ops|
  {
    var s := After(env, ops[..k]);
    id in s.rows && s.rows[id] == row && Explains(s, env, ops[k], id)
  }

  lemma StaysWellKeyed(env: Env, ops: seq<Op>)
    requires LegalRun(env, ops)
    ensures WellKeyed(After(env, ops).rows)
  {
    ReadsLastWritten(env, ops);
  }

  /** Over every run, a row that was there at some time and is not there, unchanged, at the end was changed or removed at
      some step by an operation that explains it. */
  lemma {:induction false} LossesAreExplained(env: Env, ops: seq<Op>, j: nat, id: SliceId)
    requires LegalRun(env, ops) && j <= |ops| && id in After(env, ops[..j]).rows
    requires var t := After(env, ops); id !in t.rows || t.rows[id] != After(env, ops[..j]).rows[id]
    ensures exists k: nat :: j <= k < |ops| && ExplainedAt(env, ops, k, id, After(env, ops[..j]).rows[id])
    decreases |ops|
  {
    var n, row := |ops| - 1, After(env, ops[..j]).rows[id];
    assert ops[..|ops|] == ops;
    hide Legal;
    hide Explains;
    var s := After(env, ops[..n]);
    assert ops[..n][..j] == ops[..j];
    if id in s.rows && s.rows[id] == row {
      StaysWellKeyed(env, ops[..n]);
      ChangeIsExplained(s, env, ops[n], id);
      assert ExplainedAt(env, ops, n, id, row);
    } else {
      LossesAreExplained(env, ops[..n], j, id);
      var k: nat :| j <= k < n && ExplainedAt(env, ops[..n], k, id, row);
      assert ops[..n][..k] == ops[..k];
      assert ExplainedAt(env, ops, k, id, row);
    }
  }

  // ----- last writer wins -----

  function StoreEach(s: Store, env: Env, dbs: seq<DataBlock>): Store {
    if dbs == [] then s else StoreValue(StoreEach(s, env, dbs[..|dbs| - 1]), env, dbs[|dbs| - 1]).store
  }

  /** Versions of one slice by one owner: signed, non-empty, of one slice size, told apart by their timestamps. */
  ghost predicate Versions(env: Env, dbs: seq<DataBlock>, id: SliceId, owner: string, size: nat) {
    && env.hasPublicKey(owner)
    && (forall d | d in dbs ::
          && SliceOf(d) == id && d.peerId == owner && d.sliceSize == size && Addressed(d)
          && d.transportPayload != "" && env.verify(owner, d.transportPayload, d.signature))
    && (forall d, e | d in dbs && e in dbs && d.createTimestamp == e.createTimestamp :: d == e)
  }

  predicate Newest(m: DataBlock, dbs: seq<DataBlock>) {
    m in dbs && forall d | d in dbs :: d.createTimestamp <= m.createTimestamp
  }

  lemma StoreVersion(s: Store, env: Env, db: DataBlock)
    requires SliceOf(db) !in s.rows && Addressed(db) && db.transportPayload != ""
    ensures Holds(StoreValue(s, env, db).store, db)
  {
    hide StoreValue;
    hide Holds;
    WrittenIsHeldExactly(s, env, db);
  }

  lemma ReplaceVersion(s: Store, env: Env, prior: DataBlock, db: DataBlock)
    requires Holds(s, prior) && SliceOf(db) == SliceOf(prior) && Addressed(db) && db.transportPayload != ""
    requires prior.peerId == db.peerId && prior.sliceSize == db.sliceSize
    requires env.hasPublicKey(db.peerId) && env.verify(db.peerId, db.transportPayload, db.signature)
    ensures db.createTimestamp > prior.createTimestamp ==> Holds(StoreValue(s, env, db).store, db)
    ensures db.createTimestamp <= prior.createTimestamp ==> StoreValue(s, env, db).store == s
  {
    hide StoreValue;
    HeldColumns(s, prior);
    hide Holds;
    UnacceptedChangesNothing(s, env, db);
    if db.createTimestamp > prior.createTimestamp {
      WrittenIsHeldExactly(s, env, db);
    }
  }

  lemma HeldColumns(s: Store, m: DataBlock)
    requires Holds(s, m)
    ensures SliceOf(m) in s.rows
    ensures var row := s.rows[SliceOf(m)];
            row.peerId == m.peerId && row.sliceSize == m.sliceSize && row.createTimestamp == m.createTimestamp
  {
  }

  /** Whatever the order and however often versions are repeated, the newest one stays. */
  lemma {:induction false} LastWriterWins(s: Store, env: Env, dbs: seq<DataBlock>, id: SliceId, owner: string, size: nat, m: DataBlock)
    requires id !in s.rows && Versions(env, dbs, id, owner, size) && Newest(m, dbs)
    ensures Holds(StoreEach(s, env, dbs), m)
    decreases |dbs|
  {
    var n := |dbs| - 1;
    var prefix, last := dbs[..n], dbs[n];
    assert dbs == prefix + [last];
    if prefix == [] {
      StoreVersion(s, env, last);
    } else {
      var p := NewestOf(prefix);
      LastWriterWins(s, env, prefix, id, owner, size, p);
      ReplaceVersion(StoreEach(s, env, prefix), env, p, last);
    }
  }

  ghost function NewestOf(dbs: seq<DataBlock>): (m: DataBlock)
    requires dbs != []
    ensures Newest(m, dbs)
  {
    if |dbs| == 1 then dbs[0]
    else
      var p := NewestOf(dbs[1..]);
      assert dbs == [dbs[0]] + dbs[1..];
      if p.createTimestamp >= dbs[0].createTimestamp then p else dbs[0]
  }

  /** Two deliveries of the same versions, in different orders and with different repeats, end the same. */
  lemma OrderDoesNotMatter(s: Store, env: Env, x: seq<DataBlock>, y: seq<DataBlock>, id: SliceId, owner: string, size: nat)
    requires id !in s.rows && Versions(env, x, id, owner, size) && x != []
    requires forall d :: d in x <==> d in y
    ensures var a, b := StoreEach(s, env, x), StoreEach(s, env, y);
            && id in a.rows && id in b.rows && a.rows[id] == b.rows[id]
            && ReadPayload(a.files, a.rows[id]) == ReadPayload(b.files, b.rows[id])
  {
    var m := NewestOf(x);
    assert x[0] in y;
    LastWriterWins(s, env, x, id, owner, size, m);
    LastWriterWins(s, env, y, id, owner, size, m);
    hide StoreEach;
  }
}
