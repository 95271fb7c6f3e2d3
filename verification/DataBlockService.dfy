/** The block store as the program keeps it: four tables changed in place by two write paths and an expiry sweep. */
module DataBlockService {
  import opened CacheKeys
  import opened BlockModel
  import opened PeerTransactions
  import opened BlockStore

  lemma ClearMore(files: Files, blockId: string, i: nat)
    requires i >= 1
    ensures ClearFiles(files, blockId, i) == ClearFiles(files, blockId, i - 1)[ContentName(blockId, i) := ""]
  {
    hide ContentName;
    var name := ContentName(blockId, i);
    assert ContentNames(blockId, i) == ContentNames(blockId, i - 1) + {name};
  }

  lemma ClearNothing(files: Files, blockId: string)
    ensures ClearFiles(files, blockId, 0) == files
  {
    assert ContentNames(blockId, 0) == {};
  }

  lemma IdsGrow(env: Env, db: DataBlock, lo: nat, i: nat)
    requires 1 <= lo <= i
    ensures EntryIds(env, db, lo, i) == EntryIds(env, db, lo, i - 1) + {EntryOf(Tombstone(env, db, i))}
  {
  }

  class DataBlockService {
    const env: Env
    var rows: Rows
    var keys: KeyTable
    var entries: EntryTable
    var files: Files

    ghost predicate Valid()
      reads this
    {
      WellKeyed(rows)
    }

    ghost function View(): Store
      reads this
    {
      Store(rows, keys, entries, files)
    }

    constructor (env: Env)
      ensures Valid() && View() == EMPTY_STORE && this.env == env
    {
      this.env := env;
      rows, keys, entries, files := map[], map[], map[], map[];
    }

    /** The local write that a published transaction reaches. */
    method PutEntryLocal(pt: PeerTransaction)
      modifies this`entries
      ensures entries == PutEntry(old(entries), pt)
    {
      var id := EntryOf(pt);
      if id in entries {
        if pt.deleted {
          entries := entries - {id};
          return;
        }
      } else {
        if pt.deleted {
          return;
        }
      }
      entries := entries[id := pt];
    }

    method PutPT(pt: PeerTransaction, kind: string) returns (r: Result)
      modifies this`entries
      ensures r.Ok? <==> KeyFor(pt, kind).Key?
      ensures r.Err? ==> r.error == KeyFor(pt, kind).error && entries == old(entries)
      ensures r.Ok? ==> entries == PutEntry(old(entries), pt)
    {
      match KeyFor(pt, kind)
      case NoKey(e) =>
        r := Err(e);
      case Key(_) =>
        PutEntryLocal(pt);
        r := Ok;
    }

    method PutPTs(pt: PeerTransaction) returns (r: Result)
      modifies this`entries
      ensures entries == IndexPut(old(entries), pt) && r == PutVerdict(pt)
    {
      if pt.transactionType == TransactionType(TYPE_COLLECTION) {
        r := PutPT(pt, KIND_SRC);
        if r.Err? {
          return;
        }
        r := PutPT(pt, KIND_TARGET);
        KindsDiffer();
        assert PutEntry(PutEntry(old(entries), pt), pt) == PutEntry(old(entries), pt);
      } else if pt.transactionType == TransactionType(TYPE_P2P_CHAT) {
        r := PutPT(pt, KIND_P2P_CHAT);
      } else if pt.transactionType == TransactionType(TYPE_GROUP_FILE) {
        r := PutPT(pt, KIND_GROUP_FILE);
      } else if pt.transactionType == TransactionType(TYPE_CHANNEL) {
        r := PutPT(pt, KIND_CHANNEL);
      } else if pt.transactionType == TransactionType(TYPE_CHANNEL_ARTICLE) {
        r := PutPT(pt, KIND_CHANNEL_ARTICLE);
      } else {
        r := Err("InvalidTransactionType");
      }
    }

    /** Empties the content files of slices 1 to n. */
    method ClearContents(blockId: string, n: nat)
      modifies this`files
      ensures files == ClearFiles(old(files), blockId, n)
    {
      var i := 1;
      ClearNothing(files, blockId);
      while i <= n
        invariant 1 <= i <= n + 1
        invariant files == ClearFiles(old(files), blockId, i - 1)
      {
        ClearMore(old(files), blockId, i);
        files := files[ContentName(blockId, i) := ""];
        i := i + 1;
      }
    }

    /** Removes the index entries of slices lo to hi, stopping at the first refusal. */
    method RemoveRange(db: DataBlock, lo: nat, hi: nat) returns (r: Result)
      requires lo >= 1
      modifies this`entries
      ensures entries == RemoveEntries(old(entries), env, db, lo, hi)
      ensures r == RemovalVerdict(env, db, lo, hi)
    {
      var i := lo;
      while i <= hi
        invariant lo <= i && (i <= hi + 1 || i == lo)
        invariant entries == old(entries) - EntryIds(env, db, lo, i - 1)
        invariant i > lo ==> PutVerdict(Tombstone(env, db, lo)).Ok?
      {
        r := PutPTs(Tombstone(env, db, i));
        if r.Err? {
          assert EntryIds(env, db, lo, lo - 1) == {};
          return;
        }
        IdsGrow(env, db, lo, i);
        i := i + 1;
      }
      assert lo > hi ==> EntryIds(env, db, lo, hi) == EntryIds(env, db, lo, lo - 1);
      r := Ok;
    }

    method SaveTransactionKeys(blockId: string, tks: seq<TransactionKey>) returns (r: Result)
      modifies this`keys
      ensures keys == SaveKeys(old(keys), blockId, tks) && r == KeysVerdict(blockId, tks)
    {
      for i := 0 to |tks|
        invariant SaveKeys(keys, blockId, tks[i..]) == SaveKeys(old(keys), blockId, tks)
        invariant KeysVerdict(blockId, tks[i..]) == KeysVerdict(blockId, tks)
      {
        var tk := tks[i];
        assert tks[i..][0] == tk && tks[i..][1..] == tks[i + 1..];
        if tk.blockId != blockId {
          return Err("InvalidTKBlockId");
        }
        if tk.peerId == "" {
          return Err("NoTKPeerId");
        }
        keys := keys[KeyId(blockId, tk.peerId) := tk];
      }
      r := Ok;
    }

    /** The deletion that both write paths and the sweep repeat: files, rows, keys and, where asked, index entries. */
    method Drop(cause: DataBlock, size: nat, unindex: bool) returns (r: Result)
      requires Valid()
      modifies this`rows, this`keys, this`entries, this`files
      ensures Valid()
      ensures Outcome(View(), r) == DropBlock(old(View()), env, cause, size, unindex)
    {
      ClearContents(cause.blockId, size);
      rows := RemoveBlock(rows, cause.blockId);
      keys := RemoveKeys(keys, cause.blockId);
      r := Ok;
      if unindex {
        r := RemoveRange(cause, 1, size);
      }
    }

    /** `StoreValue`: `out` is the caller's block afterwards, its payload emptied when it was spilled. */
    method StoreValue(db: DataBlock) returns (r: Result, out: DataBlock)
      requires Valid()
      modifies this
      ensures Valid()
      ensures Outcome(View(), r) == BlockStore.StoreValue(old(View()), env, db)
      ensures out == if Judge(old(View()), env, db).Write? then AfterSpill(db) else db
    {
      out := db;
      if db.blockId == "" {
        return Err("NoBlockId"), out;
      }
      if db.sliceNumber == 0 {
        return Err("NoSliceNumber"), out;
      }
      if db.businessNumber == "" {
        return Err("NoBusinessNumber"), out;
      }
      var oldSize := 0;
      if SliceOf(db) in rows {
        var prior := rows[SliceOf(db)];
        if db.blockType == TYPE_P2P_CHAT && db.transportPayload == "" {
          if prior.businessNumber != db.peerId {
            return Err("InconsistentDataBlockPeerId"), out;
          }
        } else if prior.peerId != db.peerId {
          return Err("InconsistentDataBlockPeerId"), out;
        }
        if !env.hasPublicKey(prior.peerId) {
          return Err("GetPublicKey failure"), out;
        }
        var text := SignedText(db);
        if text != "" && !env.verify(prior.peerId, text, db.signature) {
          return Err("SignatureVerifyFailure"), out;
        }
        if db.createTimestamp <= prior.createTimestamp {
          return Err("can't replace a newer value with an older value"), out;
        }
        oldSize := prior.sliceSize;
        if db.transportPayload == "" {
          if db.sliceNumber == 1 {
            r := Drop(db, oldSize, true);
            return r, out;
          }
          return Ok, out;
        }
      } else if db.transportPayload == "" {
        return Ok, out;
      }
      if |db.transportPayload| > PAYLOAD_LIMIT {
        files := files[ContentName(db.blockId, db.sliceNumber) := db.transportPayload];
        out := out.(transportPayload := "");
      }
      r := UpsertSlice(db, out, oldSize);
    }

    /** The part both write paths share in shape: row, surplus slices, keys, index entry. */
    method UpsertSlice(db: DataBlock, row: DataBlock, oldSize: nat) returns (r: Result)
      requires Valid() && row == AfterSpill(db)
      requires files == SpillFile(files, db)
      modifies this`rows, this`keys, this`entries
      ensures Valid()
      ensures Outcome(View(), r) == WriteSlice(old(View()), env, db, oldSize)
    {
      hide KeysVerdict;
      hide SaveKeys;
      hide RemoveEntries;
      rows := rows[SliceOf(row) := row.(transactionKeys := [])];
      if db.sliceNumber == 1 {
        if db.sliceSize < oldSize {
          rows := Truncate(rows, db.blockId, db.sliceSize);
          r := RemoveRange(db, db.sliceSize + 1, oldSize);
          if r.Err? {
            return;
          }
        }
        r := SaveTransactionKeys(db.blockId, db.transactionKeys);
        if r.Err? {
          return;
        }
      }
      r := Ok;
      if db.blockType != TYPE_CHAT_ATTACH {
        r := PutPTs(EntryFor(env, db));
      }
    }

    /** `XormDatastore.Put` on the entities of one value. */
    method XormPut(dbs: seq<DataBlock>) returns (r: Result)
      requires Valid()
      modifies this
      ensures Valid()
      ensures Outcome(View(), r) == PutAll(old(View()), env, dbs)
    {
      hide PutOne;
      for n := 0 to |dbs|
        invariant Valid()
        invariant Outcome(View(), Ok) == PutAll(old(View()), env, dbs[..n])
      {
        assert dbs[..n + 1][..n] == dbs[..n];
        r := XormPutOne(dbs[n]);
        if r.Err? {
          PutAllStops(old(View()), env, dbs, n);
          return;
        }
      }
      assert dbs[..|dbs|] == dbs;
      r := Ok;
    }

    /** One turn of that method's loop. */
    method XormPutOne(p: DataBlock) returns (r: Result)
      requires Valid()
      modifies this
      ensures Valid()
      ensures Outcome(View(), r) == PutOne(old(View()), env, p)
    {
      var oldSize := 0;
      if SliceOf(p) in rows {
        var prior := rows[SliceOf(p)];
        oldSize := prior.sliceSize;
        if p.blockType == TYPE_P2P_CHAT && p.transportPayload == "" {
          if prior.businessNumber != p.peerId {
            return Err("InconsistentDataBlockPeerId");
          }
        } else if prior.peerId != p.peerId {
          return Err("InconsistentDataBlockPeerId");
        }
        if p.transportPayload == "" {
          if p.sliceNumber == 1 {
            r := Drop(p, oldSize, true);
            return;
          }
          return Ok;
        }
      } else if p.transportPayload == "" {
        return Ok;
      }
      var row := p;
      if |p.transportPayload| > PAYLOAD_LIMIT {
        files := files[ContentName(p.blockId, p.sliceNumber) := p.transportPayload];
        row := row.(transportPayload := "");
      }
      r := UpsertSlice(p, row, oldSize);
    }

    /** The rows a condition selects, in the order the table happens to yield them. */
    method Find(c: Condition) returns (found: seq<DataBlock>)
      requires Valid()
      ensures Lists(found, rows, c)
    {
      var todo := rows.Keys;
      found := [];
      while todo != {}
        invariant todo <= rows.Keys
        invariant forall i | 0 <= i < |found| ::
                    SliceOf(found[i]) in rows.Keys - todo && rows[SliceOf(found[i])] == found[i] && Matches(c, found[i])
        invariant forall id | id in rows && id !in todo && Matches(c, rows[id]) :: rows[id] in found
        invariant forall i, j | 0 <= i < j < |found| :: found[i] != found[j]
        decreases todo
      {
        var id :| id in todo;
        todo := todo - {id};
        if Matches(c, rows[id]) {
          found := found + [rows[id]];
        }
      }
    }

    /** `GetLocal` on a block key or an owner key. */
    method GetLocal(key: Condition) returns (existing: seq<DataBlock>, ghost found: seq<DataBlock>)
      requires Valid()
      ensures Lists(found, rows, key)
      ensures LoadedAll(existing, files, keys, found)
      ensures forall i | 0 <= i < |found| && found[i].sliceNumber != 1 ::
                existing[i] == found[i].(transportPayload := ReadPayload(files, found[i]))
      ensures forall e | e in existing :: SliceOf(e) in rows && Loaded(e, files, keys, rows[SliceOf(e)])
    {
      var rs := Find(key);
      existing := [];
      for i := 0 to |rs|
        invariant LoadedAll(existing, files, keys, rs[..i])
      {
        var row := Load(files, rs[i]);
        if row.sliceNumber == 1 {
          var tks := FindKeys(row.blockId);
          KeysListed(tks, keys, row.blockId);
          if |tks| > 0 {
            row := row.(transactionKeys := tks);
          }
        }
        assert Loaded(row, files, keys, rs[i]);
        existing := existing + [row];
      }
      assert rs[..|rs|] == rs;
      found := rs;
    }

    /** `PutLocal` of one block: guard the write by what is already stored under the key. */
    method PutLocal(key: Condition, db: DataBlock) returns (r: Result, ghost found: seq<DataBlock>)
      requires Valid()
      modifies this
      ensures Valid()
      ensures Lists(found, old(rows), key)
      ensures Outcome(View(), r) == BlockStore.PutLocal(old(View()), env, db, found)
    {
      var existing;
      existing, found := GetLocal(key);
      SelectIgnoresKeys(db, existing, files, keys, found);
      if |existing| > 0 {
        var i := SelectLoop(db, existing);
        if i != 0 {
          return Ok, found;
        }
      }
      r := XormPut([db]);
    }

    /** `PutLocal` of a value that holds a list of blocks: `Select` cannot read it as one block, so it is refused where
        anything but the very same list is stored under the key, and unguarded where nothing is. */
    method PutLocalList(key: Condition, dbs: seq<DataBlock>)
      returns (r: Result, existing: seq<DataBlock>, ghost found: seq<DataBlock>)
      requires Valid()
      modifies this
      ensures Valid()
      ensures Lists(found, old(rows), key) && LoadedAll(existing, old(files), old(keys), found)
      ensures existing != [] && existing != dbs ==> r == Err("UnmarshalFailure") && View() == old(View())
      ensures existing == [] || existing == dbs ==> Outcome(View(), r) == PutAll(old(View()), env, dbs)
    {
      existing, found := GetLocal(key);
      if |existing| > 0 && existing != dbs {
        return Err("UnmarshalFailure"), existing, found;
      }
      r := XormPut(dbs);
    }

    static method SelectLoop(db: DataBlock, existing: seq<DataBlock>) returns (which: int)
      ensures which == Select(db, existing)
    {
      for i := 0 to |existing|
        invariant Select(db, existing[i..]) == Select(db, existing)
      {
        var e := existing[i];
        assert existing[i..][0] == e && existing[i..][1..] == existing[i + 1..];
        if e.blockId == db.blockId && e.sliceNumber == db.sliceNumber && db.createTimestamp <= e.createTimestamp {
          return 1;
        }
      }
      which := 0;
    }

    /** `DeleteExpiredDB`: the sweep over the rows that had expired when it started. */
    method DeleteExpiredDB(now: int) returns (r: Result, ghost found: seq<DataBlock>)
      requires Valid()
      modifies this
      ensures Valid()
      ensures Lists(found, old(rows), ExpiredBy(now))
      ensures Outcome(View(), r) == ExpireAll(old(View()), env, found)
    {
      var rs := Find(ExpiredBy(now));
      found := rs;
      for n := 0 to |rs|
        invariant Valid()
        invariant Outcome(View(), Ok) == ExpireAll(old(View()), env, rs[..n])
      {
        var row := rs[n];
        assert rs[..n + 1][..n] == rs[..n];
        if row.sliceNumber == 1 {
          r := Drop(row, row.sliceSize, row.blockType != TYPE_CHAT_ATTACH);
          if r.Err? {
            ExpireAllStops(old(View()), env, rs, n);
            return r, found;
          }
        }
      }
      assert rs[..|rs|] == rs;
      r := Ok;
    }

    /** `QueryValue`: a slice number of 0 asks for every slice of the block. */
    method QueryValue(blockId: string, sliceNumber: nat) returns (result: seq<DataBlock>, ghost found: seq<DataBlock>)
      requires Valid()
      ensures var id := SliceId(blockId, sliceNumber);
              blockId != "" && sliceNumber != 0 ==>
                if id in rows then |result| == 1 && result[0].transportPayload == ReadPayload(files, rows[id])
                else result == []
      ensures Lists(found, rows, OfSlice(blockId, sliceNumber))
      ensures |result| == |found|
      ensures forall i | 0 <= i < |found| ::
                && result[i].transportPayload == ReadPayload(files, found[i])
                && result[i].(transportPayload := "", transactionKeys := []) ==
                   found[i].(transportPayload := "", transactionKeys := [])
      ensures forall i | 0 <= i < |found| ::
                if sliceNumber == 1 && KeysOf(keys, found[i].blockId) != {}
                then ListsKeys(result[i].transactionKeys, keys, found[i].blockId)
                else result[i].transactionKeys == found[i].transactionKeys
    {
      var rs := Find(OfSlice(blockId, sliceNumber));
      result := [];
      for i := 0 to |rs|
        invariant |result| == i
        invariant forall j | 0 <= j < i ::
                    && result[j].transportPayload == ReadPayload(files, rs[j])
                    && result[j].(transportPayload := "", transactionKeys := []) ==
                       rs[j].(transportPayload := "", transactionKeys := [])
        invariant forall j | 0 <= j < i ::
                    if sliceNumber == 1 && KeysOf(keys, rs[j].blockId) != {}
                    then ListsKeys(result[j].transactionKeys, keys, rs[j].blockId)
                    else result[j].transactionKeys == rs[j].transactionKeys
      {
        var row := rs[i];
        if sliceNumber == 1 {
          var tks := FindKeys(row.blockId);
          KeysListed(tks, keys, row.blockId);
          if |tks| > 0 {
            row := row.(transactionKeys := tks);
          }
        }
        if row.transportPayload == "" {
          var name := ContentName(row.blockId, row.sliceNumber);
          row := row.(transportPayload := if name in files then files[name] else "");
        }
        result := result + [row];
      }
      found := rs;
      if blockId != "" && sliceNumber != 0 {
        OneSliceFound(rows, blockId, sliceNumber, found);
      }
    }

    method FindKeys(blockId: string) returns (tks: seq<TransactionKey>)
      ensures ListsKeys(tks, keys, blockId)
    {
      var todo := KeysOf(keys, blockId);
      tks := [];
      while todo != {}
        invariant todo <= KeysOf(keys, blockId)
        invariant forall id | id in KeysOf(keys, blockId) - todo :: keys[id] in tks
        invariant forall tk | tk in tks :: exists id :: id in KeysOf(keys, blockId) && keys[id] == tk
        decreases todo
      {
        var id :| id in todo;
        todo := todo - {id};
        tks := tks + [keys[id]];
      }
    }
  }

  /** A row as the local store hands it out: its payload brought back from its file, and with slice 1 the keys of its
      block, if there are any. */
  ghost predicate Loaded(e: DataBlock, files: Files, keys: KeyTable, row: DataBlock) {
    && e.(transactionKeys := []) == Load(files, row).(transactionKeys := [])
    && if row.sliceNumber == 1 && KeysOf(keys, row.blockId) != {} then ListsKeys(e.transactionKeys, keys, row.blockId)
       else e.transactionKeys == row.transactionKeys
  }

  ghost predicate LoadedAll(existing: seq<DataBlock>, files: Files, keys: KeyTable, found: seq<DataBlock>) {
    |existing| == |found| && forall i | 0 <= i < |found| :: Loaded(existing[i], files, keys, found[i])
  }

  lemma KeysListed(tks: seq<TransactionKey>, keys: KeyTable, blockId: string)
    requires ListsKeys(tks, keys, blockId)
    ensures tks == [] <==> KeysOf(keys, blockId) == {}
  {
    if tks != [] {
      assert tks[0] in tks;
    }
  }

  /** The guard looks at ids and timestamps alone. */
  lemma {:induction false} SelectIgnoresKeys(db: DataBlock, existing: seq<DataBlock>, files: Files, keys: KeyTable,
                                             found: seq<DataBlock>)
    requires LoadedAll(existing, files, keys, found)
    ensures Select(db, existing) == Select(db, LoadAll(files, found))
    decreases |existing|
  {
    if existing != [] {
      assert Loaded(existing[0], files, keys, found[0]);
      SelectIgnoresKeys(db, existing[1..], files, keys, found[1..]);
      assert LoadAll(files, found)[1..] == LoadAll(files, found[1..]);
    }
  }

  lemma OneSliceFound(rows: Rows, blockId: string, sliceNumber: nat, found: seq<DataBlock>)
    requires WellKeyed(rows) && blockId != "" && sliceNumber != 0
    requires Lists(found, rows, OfSlice(blockId, sliceNumber))
    ensures var id := SliceId(blockId, sliceNumber); found == if id in rows then [rows[id]] else []
  {
    var id := SliceId(blockId, sliceNumber);
    assert forall i | 0 <= i < |found| :: SliceOf(found[i]) == id && found[i] == rows[id];
    if found != [] {
      assert found[0] == found[|found| - 1];
    }
    if id in rows {
      assert Matches(OfSlice(blockId, sliceNumber), rows[id]) && rows[id] in found;
    }
  }

  function KeysOf(keys: KeyTable, blockId: string): set<KeyId> {
    set id | id in keys && id.blockId == blockId
  }

  /** `tks` are exactly the keys stored for a block. */
  ghost predicate ListsKeys(tks: seq<TransactionKey>, keys: KeyTable, blockId: string) {
    && (forall id | id in KeysOf(keys, blockId) :: keys[id] in tks)
    && (forall tk | tk in tks :: exists id :: id in KeysOf(keys, blockId) && keys[id] == tk)
  }

  /** Once a prefix fails the rest is not looked at. */
  lemma {:induction false} PutAllStops(s: Store, env: Env, dbs: seq<DataBlock>, n: nat)
    requires n < |dbs| && PutAll(s, env, dbs[..n + 1]).result.Err?
    ensures PutAll(s, env, dbs) == PutAll(s, env, dbs[..n + 1])
    decreases |dbs|
  {
    if n + 1 < |dbs| {
      var shorter := dbs[..|dbs| - 1];
      assert shorter[..n + 1] == dbs[..n + 1];
      PutAllStops(s, env, shorter, n);
    } else {
      assert dbs[..n + 1] == dbs;
    }
  }

  lemma {:induction false} ExpireAllStops(s: Store, env: Env, found: seq<DataBlock>, n: nat)
    requires n < |found| && ExpireAll(s, env, found[..n + 1]).result.Err?
    ensures ExpireAll(s, env, found) == ExpireAll(s, env, found[..n + 1])
    decreases |found|
  {
    if n + 1 < |found| {
      var shorter := found[..|found| - 1];
      assert shorter[..n + 1] == found[..n + 1];
      ExpireAllStops(s, env, shorter, n);
    } else {
      assert found[..n + 1] == found;
    }
  }
}
