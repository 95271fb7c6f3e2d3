/** Deleting is exact: it takes the whole of the blocks it should, and touches nothing else. */
module Expiry {
  import opened CacheKeys
  import opened BlockModel
  import opened PeerTransactions
  import opened BlockStore

  /** The blocks whose first slice is among the rows listed. */
  function Heads(found: seq<DataBlock>): set<string> {
    set i | 0 <= i < |found| && found[i].sliceNumber == 1 :: found[i].blockId
  }

  /** The blocks whose first slice has expired. */
  function ExpiredBlocks(rows: Rows, now: int): set<string> {
    set id | id in rows && id.sliceNumber == 1 && rows[id].expireDate <= now :: id.blockId
  }

  function HeadRow(rows: Rows, b: string): DataBlock
    requires SliceId(b, 1) in rows
  {
    rows[SliceId(b, 1)]
  }

  predicate HaveHeads(rows: Rows, bs: set<string>) { forall b | b in bs :: SliceId(b, 1) in rows }

  /** The content names of every slice the given blocks count. */
  function BlockContents(rows: Rows, bs: set<string>): set<string>
    requires HaveHeads(rows, bs)
  {
    set b, name | b in bs && name in ContentNames(b, HeadRow(rows, b).sliceSize) :: name
  }

  /** The index entries of every slice the given blocks count; attachments have none. */
  function BlockEntries(rows: Rows, env: Env, bs: set<string>): set<EntryId>
    requires HaveHeads(rows, bs)
  {
    set b, e | b in bs && HeadRow(rows, b).blockType != TYPE_CHAT_ATTACH &&
               e in EntryIds(env, HeadRow(rows, b), 1, HeadRow(rows, b).sliceSize) :: e
  }

  /** The tables without the given blocks, and the index without those in `unindexed`. */
  function Cleared(s: Store, env: Env, bs: set<string>, unindexed: set<string>): Store
    requires HaveHeads(s.rows, bs) && HaveHeads(s.rows, unindexed)
  {
    Store(map id | id in s.rows && id.blockId !in bs :: s.rows[id],
          map id | id in s.keys && id.blockId !in bs :: s.keys[id],
          s.entries - BlockEntries(s.rows, env, unindexed),
          s.files + map name | name in BlockContents(s.rows, bs) :: "")
  }

  /** The tables without the given blocks. */
  function Without(s: Store, env: Env, bs: set<string>): Store
    requires HaveHeads(s.rows, bs)
  {
    Cleared(s, env, bs, bs)
  }

  /** These tables slice by slice and entry by entry: the blocks' rows and keys are gone, the files of the slices their first
      ones counted are empty, the entries of those to be unindexed are gone, attachments having none; all else stays. */
  lemma ClearedMeans(s: Store, env: Env, bs: set<string>, unindexed: set<string>, id: SliceId, e: EntryId, k: KeyId)
    requires WellKeyed(s.rows) && HaveHeads(s.rows, bs) && HaveHeads(s.rows, unindexed)
    ensures var t := Cleared(s, env, bs, unindexed);
            && (id in t.rows <==> id in s.rows && id.blockId !in bs) && (id in t.rows ==> t.rows[id] == s.rows[id])
            && (k in t.keys <==> k in s.keys && k.blockId !in bs) && (k in t.keys ==> t.keys[k] == s.keys[k])
            && (var name := ContentName(id.blockId, id.sliceNumber);
                if id.blockId in bs && 1 <= id.sliceNumber <= s.rows[SliceId(id.blockId, 1)].sliceSize
                then name in t.files && t.files[name] == ""
                else (name in t.files <==> name in s.files) && (name in s.files ==> t.files[name] == s.files[name]))
            && (e in t.entries <==>
                  && e in s.entries
                  && !(e.blockId in unindexed && var head := s.rows[SliceId(e.blockId, 1)];
                       head.blockType != "ChatAttach" && e.targetPeerId == env.myself
                       && e.businessNumber == head.businessNumber && 1 <= e.sliceNumber <= head.sliceSize))
            && (e in t.entries ==> t.entries[e] == s.entries[e])
  {
    hide ContentName;
    hide ContentNames;
    NameClearedExactly(s.rows, bs, id);
    EntryClearedExactly(s.rows, env, unindexed, e);
    hide BlockContents;
    hide BlockEntries;
  }

  lemma NameClearedExactly(rows: Rows, bs: set<string>, id: SliceId)
    requires HaveHeads(rows, bs)
    ensures ContentName(id.blockId, id.sliceNumber) in BlockContents(rows, bs) <==>
            id.blockId in bs && 1 <= id.sliceNumber <= HeadRow(rows, id.blockId).sliceSize
  {
    forall b | b in bs {
      NameListedExactly(b, HeadRow(rows, b).sliceSize, id);
    }
    hide ContentName;
    hide ContentNames;
  }

  lemma EntryClearedExactly(rows: Rows, env: Env, bs: set<string>, e: EntryId)
    requires WellKeyed(rows) && HaveHeads(rows, bs)
    ensures e in BlockEntries(rows, env, bs) <==>
              e.blockId in bs && var head := HeadRow(rows, e.blockId);
              head.blockType != TYPE_CHAT_ATTACH && e.targetPeerId == env.myself
              && e.businessNumber == head.businessNumber && 1 <= e.sliceNumber <= head.sliceSize
  {
    assert forall b | b in bs :: HeadRow(rows, b).blockId == b by {
      assert forall b | b in bs :: SliceOf(rows[SliceId(b, 1)]) == SliceId(b, 1);
    }
    if e.blockId in bs {
      var head := HeadRow(rows, e.blockId);
      assert e in EntryIds(env, head, 1, head.sliceSize) <==>
             e == EntryId(env.myself, head.blockId, e.sliceNumber, head.businessNumber) && 1 <= e.sliceNumber <= head.sliceSize;
    }
  }

  /** The index has nothing to remove for a block, or takes the orders. */
  predicate Removable(head: DataBlock) {
    head.blockType == TYPE_CHAT_ATTACH || head.sliceSize == 0 || IndexTakes(head)
  }

  lemma RemovableExactly(env: Env, head: DataBlock)
    ensures Removable(head) <==> head.blockType == TYPE_CHAT_ATTACH || RemovalVerdict(env, head, 1, head.sliceSize).Ok?
  {
    IndexTakesExactly(head, Tombstone(env, head, 1));
  }

  /** A listed first slice whose removal the index refuses. */
  predicate Refused(row: DataBlock) { row.sliceNumber == 1 && !Removable(row) }

  lemma ContentsOneMore(rows: Rows, bs: set<string>, head: DataBlock)
    requires HaveHeads(rows, bs) && SliceId(head.blockId, 1) in rows && HeadRow(rows, head.blockId) == head
    ensures BlockContents(rows, bs + {head.blockId}) ==
            BlockContents(rows, bs) + ContentNames(head.blockId, head.sliceSize)
  {
  }

  function OwnEntries(env: Env, head: DataBlock): set<EntryId> {
    if head.blockType == TYPE_CHAT_ATTACH then {} else EntryIds(env, head, 1, head.sliceSize)
  }

  lemma EntriesOneMore(rows: Rows, env: Env, bs: set<string>, head: DataBlock)
    requires HaveHeads(rows, bs) && SliceId(head.blockId, 1) in rows && HeadRow(rows, head.blockId) == head
    ensures BlockEntries(rows, env, bs + {head.blockId}) == BlockEntries(rows, env, bs) + OwnEntries(env, head)
  {
  }

  lemma ClearTwice(files: Files, x: set<string>, y: set<string>)
    ensures files + (map name | name in x :: "") + (map name | name in y :: "") == files + map name | name in x + y :: ""
  {
  }

  lemma RowsOneMore(s: Store, env: Env, bs: set<string>, b: string)
    requires HaveHeads(s.rows, bs + {b})
    ensures RemoveBlock(Without(s, env, bs).rows, b) == Without(s, env, bs + {b}).rows
    ensures RemoveKeys(Without(s, env, bs).keys, b) == Without(s, env, bs + {b}).keys
  {
  }

  /** Expiring one more block clears it from rows, keys and files, and from the index unless that refuses. */
  lemma WithoutOneMore(s: Store, env: Env, bs: set<string>, head: DataBlock)
    requires WellKeyed(s.rows) && HaveHeads(s.rows, bs)
    requires head.sliceNumber == 1 && SliceOf(head) in s.rows && s.rows[SliceOf(head)] == head
    ensures var o := ExpireOne(Without(s, env, bs), env, head);
            && o.store == Cleared(s, env, bs + {head.blockId}, if Removable(head) then bs + {head.blockId} else bs)
            && (o.result.Ok? <==> Removable(head))
  {
    var w := Without(s, env, bs);
    RowsOneMore(s, env, bs, head.blockId);
    ContentsOneMore(s.rows, bs, head);
    ClearTwice(s.files, BlockContents(s.rows, bs), ContentNames(head.blockId, head.sliceSize));
    EntriesOneMore(s.rows, env, bs, head);
    RemovedEntries(w.entries, env, head);
    assert s.entries - BlockEntries(s.rows, env, bs) - OwnEntries(env, head) ==
           s.entries - (BlockEntries(s.rows, env, bs) + OwnEntries(env, head));
  }

  lemma RemovedEntries(entries: EntryTable, env: Env, head: DataBlock)
    ensures (if head.blockType != TYPE_CHAT_ATTACH then RemoveEntries(entries, env, head, 1, head.sliceSize) else entries)
            == if Removable(head) then entries - OwnEntries(env, head) else entries
    ensures head.blockType != TYPE_CHAT_ATTACH ==> (RemovalVerdict(env, head, 1, head.sliceSize).Ok? <==> Removable(head))
  {
    RemovableExactly(env, head);
    assert entries - {} == entries;
  }

  lemma NothingRemoved(s: Store, env: Env)
    ensures Without(s, env, {}) == s
  {
    assert BlockContents(s.rows, {}) == {} && BlockEntries(s.rows, env, {}) == {};
  }

  /** The part of a listing the sweep gets to: all of it, or up to and including the first refused slice. */
  function Reached(found: seq<DataBlock>): (reached: seq<DataBlock>)
    ensures reached <= found
  {
    if found == [] then []
    else
      var prefix := found[..|found| - 1];
      if Stops(prefix) then Reached(prefix) else found
  }

  predicate Stops(found: seq<DataBlock>) { exists i :: 0 <= i < |found| && Refused(found[i]) }

  /** The blocks taken out of the index: those reached, without the one that is refused. */
  function Unindexed(found: seq<DataBlock>): set<string> {
    var reached := Reached(found);
    if Stops(found) && reached != [] then Heads(reached[..|reached| - 1]) else Heads(reached)
  }

  /** The rows listed are stored, each once. */
  ghost predicate Stored(found: seq<DataBlock>, rows: Rows) {
    && (forall i | 0 <= i < |found| :: SliceOf(found[i]) in rows && rows[SliceOf(found[i])] == found[i])
    && forall i, j | 0 <= i < j < |found| :: found[i] != found[j]
  }

  lemma StoredHeads(found: seq<DataBlock>, rows: Rows)
    requires Stored(found, rows)
    ensures HaveHeads(rows, Heads(found)) && HaveHeads(rows, Heads(Reached(found))) && HaveHeads(rows, Unindexed(found))
  {
    var reached := Reached(found);
    assert forall i | 0 <= i < |reached| :: reached[i] == found[i];
  }

  lemma StopsOneMore(found: seq<DataBlock>)
    requires found != []
    ensures var n := |found| - 1; Stops(found) <==> Stops(found[..n]) || Refused(found[n])
  {
    var n := |found| - 1;
    assert forall i | 0 <= i < n :: found[..n][i] == found[i];
  }

  lemma NotStopped(found: seq<DataBlock>)
    requires !Stops(found)
    ensures Reached(found) == found
  {
    if found != [] {
      StopsOneMore(found);
    }
  }

  /** The sweep over a list of stored rows, whatever stops it: rows, keys and files of the blocks reached are gone, the
      refused one's among them; the index loses the entries of those before it; and the answer is Ok if and only if
      none is refused. */
  lemma {:induction false} SweepExactly(s: Store, env: Env, found: seq<DataBlock>)
    requires WellKeyed(s.rows) && Stored(found, s.rows)
    ensures HaveHeads(s.rows, Heads(Reached(found))) && HaveHeads(s.rows, Unindexed(found))
    ensures ExpireAll(s, env, found).store == Cleared(s, env, Heads(Reached(found)), Unindexed(found))
    ensures ExpireAll(s, env, found).result.Ok? <==> !Stops(found)
    decreases |found|
  {
    StoredHeads(found, s.rows);
    if found == [] {
      NothingRemoved(s, env);
    } else {
      hide ExpireOne;
      hide Cleared;
      hide Refused;
      hide Reached;
      hide Unindexed;
      hide Heads;
      hide Stops;
      hide HaveHeads;
      hide WellKeyed;
      var n := |found| - 1;
      StoredPrefix(found, s.rows);
      hide Stored;
      SweepExactly(s, env, found[..n]);
      ReachedOneMore(found);
      if !Stops(found[..n]) {
        SweepStep(s, env, Heads(found[..n]), found[n]);
      }
    }
  }

  lemma StoredPrefix(found: seq<DataBlock>, rows: Rows)
    requires Stored(found, rows) && found != []
    ensures var n := |found| - 1;
            Stored(found[..n], rows) && SliceOf(found[n]) in rows && rows[SliceOf(found[n])] == found[n]
  {
  }

  lemma ReachedOneMore(found: seq<DataBlock>)
    requires found != []
    ensures var n := |found| - 1;
            var prefix, last := found[..n], found[n];
            && (Stops(found) <==> Stops(prefix) || Refused(last))
            && if Stops(prefix) then Reached(found) == Reached(prefix) && Unindexed(found) == Unindexed(prefix)
               else
                 && Reached(prefix) == prefix && Unindexed(prefix) == Heads(prefix) && Reached(found) == found
                 && Heads(found) == (if last.sliceNumber == 1 then Heads(prefix) + {last.blockId} else Heads(prefix))
                 && Unindexed(found) == (if Refused(last) then Heads(prefix) else Heads(found))
  {
    hide Refused;
    hide Heads;
    var n := |found| - 1;
    StopsOneMore(found);
    OneMoreHead(found);
    if Stops(found[..n]) {
      StopsReaches(found[..n]);
    } else {
      NotStopped(found[..n]);
    }
  }

  lemma {:induction false} StopsReaches(found: seq<DataBlock>)
    requires Stops(found)
    ensures Reached(found) != []
    decreases |found|
  {
    hide Refused;
    var prefix := found[..|found| - 1];
    if Stops(prefix) {
      StopsReaches(prefix);
    }
  }

  /** So a sweep that answers Ok removes precisely the blocks listed. */
  lemma SweepRemovesHeads(s: Store, env: Env, found: seq<DataBlock>)
    requires WellKeyed(s.rows) && Stored(found, s.rows)
    ensures HaveHeads(s.rows, Heads(found))
    ensures ExpireAll(s, env, found).result.Ok? ==> ExpireAll(s, env, found).store == Without(s, env, Heads(found))
  {
    hide Cleared;
    StoredHeads(found, s.rows);
    SweepExactly(s, env, found);
    if !Stops(found) {
      NotStopped(found);
    }
  }

  lemma SweepStep(s: Store, env: Env, bs: set<string>, row: DataBlock)
    requires WellKeyed(s.rows) && HaveHeads(s.rows, bs) && SliceOf(row) in s.rows && s.rows[SliceOf(row)] == row
    ensures row.sliceNumber != 1 ==> ExpireOne(Cleared(s, env, bs, bs), env, row) == Outcome(Cleared(s, env, bs, bs), Ok)
    ensures row.sliceNumber == 1 ==>
              && HaveHeads(s.rows, bs + {row.blockId})
              && var o := ExpireOne(Cleared(s, env, bs, bs), env, row);
                 && o.store == Cleared(s, env, bs + {row.blockId}, if Refused(row) then bs else bs + {row.blockId})
    ensures ExpireOne(Cleared(s, env, bs, bs), env, row).result.Ok? <==> !Refused(row)
  {
    if row.sliceNumber == 1 {
      WithoutOneMore(s, env, bs, row);
    }
  }

  lemma OneMoreHead(found: seq<DataBlock>)
    requires found != []
    ensures var n := |found| - 1;
            Heads(found) == if found[n].sliceNumber == 1 then Heads(found[..n]) + {found[n].blockId} else Heads(found[..n])
  {
    var n := |found| - 1;
    assert forall i | 0 <= i < n :: found[..n][i] == found[i];
  }

  /** No first slice is listed behind a refused one. */
  predicate RefusedLast(found: seq<DataBlock>) {
    forall i, j | 0 <= i < j < |found| && found[j].sliceNumber == 1 :: !Refused(found[i])
  }

  lemma {:induction false} ReachedHeads(found: seq<DataBlock>)
    requires forall i, j | 0 <= i < j < |found| && found[i].sliceNumber == found[j].sliceNumber == 1 ::
               found[i].blockId != found[j].blockId
    ensures Heads(Reached(found)) == Heads(found) <==> RefusedLast(found)
    ensures Heads(Reached(found)) <= Heads(found)
    decreases |found|
  {
    if found != [] {
      var n := |found| - 1;
      var prefix, last := found[..n], found[n];
      hide Refused;
      ReachedHeads(prefix);
      OneMoreHead(found);
      assert forall i | 0 <= i < n :: prefix[i] == found[i];
      if Stops(prefix) {
        var i :| 0 <= i < n && Refused(prefix[i]);
        if last.sliceNumber == 1 {
          assert last.blockId !in Heads(prefix);
          assert Refused(found[i]);
        }
      }
    }
  }

  lemma ListedHeads(rows: Rows, now: int, found: seq<DataBlock>)
    requires WellKeyed(rows) && Lists(found, rows, ExpiredBy(now))
    ensures Heads(found) == ExpiredBlocks(rows, now)
    ensures forall i, j | 0 <= i < j < |found| && found[i].sliceNumber == found[j].sliceNumber == 1 ::
              found[i].blockId != found[j].blockId
  {
    forall b | b in ExpiredBlocks(rows, now) ensures b in Heads(found) {
      var id := SliceId(b, 1);
      assert rows[id] in found;
      var i :| 0 <= i < |found| && found[i] == rows[id];
    }
    forall i, j | 0 <= i < j < |found| && found[i].sliceNumber == found[j].sliceNumber == 1
      ensures found[i].blockId != found[j].blockId
    {
      assert found[i] == rows[SliceOf(found[i])] && found[j] == rows[SliceOf(found[j])];
    }
  }

  lemma SameRowsSameBlocks(s: Store, env: Env, x: set<string>, y: set<string>, u: set<string>, v: set<string>)
    requires HaveHeads(s.rows, x) && HaveHeads(s.rows, y) && HaveHeads(s.rows, u) && HaveHeads(s.rows, v)
    ensures Cleared(s, env, x, u).rows == Cleared(s, env, y, v).rows <==> x == y
  {
    var rows1, rows2 := Cleared(s, env, x, u).rows, Cleared(s, env, y, v).rows;
    forall b | (b in x) != (b in y) ensures rows1 != rows2 {
      assert (SliceId(b, 1) in rows1) != (SliceId(b, 1) in rows2);
    }
    if x != y {
      assert exists b :: (b in x) != (b in y);
    }
  }

  /** What the sweep over all expired rows does, in whatever order the table lists them: it answers Ok if and only if the
      index takes every expired block's orders, and then removes precisely the expired blocks from all four tables;
      from rows, keys and files it removes precisely these if and only if no first slice is listed behind a refused
      one. */
  lemma ExpiryExact(s: Store, env: Env, now: int, found: seq<DataBlock>)
    requires WellKeyed(s.rows) && Lists(found, s.rows, ExpiredBy(now))
    ensures HaveHeads(s.rows, ExpiredBlocks(s.rows, now))
    ensures var o, w := ExpireAll(s, env, found), Without(s, env, ExpiredBlocks(s.rows, now));
            && (o.result.Ok? <==> forall b | b in ExpiredBlocks(s.rows, now) :: Removable(HeadRow(s.rows, b)))
            && (o.result.Ok? ==> o.store == w)
            && (o.store.rows == w.rows <==> RefusedLast(found))
            && (RefusedLast(found) ==> o.store.keys == w.keys && o.store.files == w.files)
  {
    StoredHeads(found, s.rows);
    SweepExactly(s, env, found);
    ListedHeads(s.rows, now, found);
    ReachedHeads(found);
    StopsAtHeads(s.rows, found);
    SameRowsSameBlocks(s, env, Heads(Reached(found)), Heads(found), Unindexed(found), Heads(found));
    if !Stops(found) {
      NotStopped(found);
    }
  }

  lemma StopsAtHeads(rows: Rows, found: seq<DataBlock>)
    requires Stored(found, rows) && HaveHeads(rows, Heads(found))
    ensures Stops(found) <==> exists b :: b in Heads(found) && !Removable(HeadRow(rows, b))
  {
    forall i | 0 <= i < |found| && found[i].sliceNumber == 1
      ensures found[i].blockId in Heads(found) && HeadRow(rows, found[i].blockId) == found[i]
    {
    }
    forall b | b in Heads(found)
      ensures exists i :: 0 <= i < |found| && found[i].sliceNumber == 1 && found[i] == HeadRow(rows, b)
    {
      var i :| 0 <= i < |found| && found[i].sliceNumber == 1 && found[i].blockId == b;
      assert found[i] == HeadRow(rows, b);
    }
  }

  /** A collection block that expires at time 1. */
  function Expiring(blockId: string, source: string): DataBlock {
    DataBlock(blockId, 1, 1, TYPE_COLLECTION, "n", source, "text", "", "", [], 1, 1, 0, "p", "", STATUS_EFFECTIVE)
  }

  lemma StoreExpiring(s: Store, env: Env, blockId: string, source: string)
    requires SliceId(blockId, 1) !in s.rows && blockId != ""
    ensures StoreValue(s, env, Expiring(blockId, source)).store.rows ==
            s.rows[SliceId(blockId, 1) := Expiring(blockId, source)]
  {
    var db := Expiring(blockId, source);
    assert Judge(s, env, db) == Write(0);
  }

  lemma TwoExpiring(env: Env) returns (s: Store)
    ensures s == StoreValue(StoreValue(EMPTY_STORE, env, Expiring("a", "")).store, env, Expiring("b", "c")).store
    ensures "a" != "b"
    ensures s.rows == map[SliceId("a", 1) := Expiring("a", ""), SliceId("b", 1) := Expiring("b", "c")]
  {
    hide StoreValue;
    assert "a"[0] != "b"[0];
    var r := StoreValue(EMPTY_STORE, env, Expiring("a", "")).store;
    StoreExpiring(EMPTY_STORE, env, "a", "");
    StoreExpiring(r, env, "b", "c");
    s := StoreValue(r, env, Expiring("b", "c")).store;
  }

  /** A store, of indexed types alone and made by two stores, whose sweep leaves an expired block behind: a collection
      without a source is kept although its store answers an error, and it stops the sweep in front of another. */
  lemma RefusedStopsSweep() returns (env: Env, s: Store, found: seq<DataBlock>)
    ensures s == StoreValue(StoreValue(EMPTY_STORE, env, Expiring("a", "")).store, env, Expiring("b", "c")).store
    ensures WellKeyed(s.rows) && Lists(found, s.rows, ExpiredBy(1))
    ensures forall id | id in s.rows :: Indexable(s.rows[id].blockType)
    ensures var o := ExpireAll(s, env, found);
            o.result.Err? && SliceId("b", 1) in o.store.rows && "b" in ExpiredBlocks(s.rows, 1)
  {
    hide StoreValue;
    hide ExpireAll;
    env := Env("peer", _ => true, (_, _, _) => true);
    s := TwoExpiring(env);
    var a, b := Expiring("a", ""), Expiring("b", "c");
    found := [a, b];
    assert a in found && b in found && found[0] == a && found[1] == b;
    CollectionRefused(a);
    StopsAtFirst(a, b);
    SweepExactly(s, env, found);
    assert SliceId("b", 1) in s.rows;
  }

  lemma StopsAtFirst(a: DataBlock, b: DataBlock)
    requires Refused(a)
    ensures Stops([a, b]) && Reached([a, b]) == [a] && Heads([a]) == {a.blockId}
  {
    assert [a, b][..1] == [a] && [a][..0] == [];
    assert Refused([a][0]) && Refused([a, b][0]);
  }

  lemma CollectionRefused(row: DataBlock)
    requires row.blockType == TYPE_COLLECTION && row.peerId == "" && row.sliceNumber == 1 && row.sliceSize >= 1
    ensures Refused(row)
  {
    assert TYPE_COLLECTION[1] == 'o' && TYPE_CHAT_ATTACH[1] == 'h';
  }

  /** An accepted empty payload for the first slice does the same for its one block, apart from the index, whose
      entries are named after the deleting message. */
  lemma DeleteExact(s: Store, env: Env, db: DataBlock)
    requires WellKeyed(s.rows) && Judge(s, env, db).Delete?
    ensures var t := StoreValue(s, env, db).store;
            var w := Without(s, env, {db.blockId});
            t.rows == w.rows && t.keys == w.keys && t.files == w.files
    ensures StoreValue(s, env, db).result.Ok? ==>
              StoreValue(s, env, db).store.entries == s.entries - EntryIds(env, db, 1, s.rows[SliceOf(db)].sliceSize)
    ensures StoreValue(s, env, db).result.Err? ==> StoreValue(s, env, db).store.entries == s.entries
  {
    hide Without;
    var size := s.rows[SliceOf(db)].sliceSize;
    DropIsWithout(s, env, db);
    assert StoreValue(s, env, db) == DropBlock(s, env, db, size, true);
  }

  lemma DropIsWithout(s: Store, env: Env, db: DataBlock)
    requires SliceId(db.blockId, 1) in s.rows
    ensures var w := Without(s, env, {db.blockId});
            && RemoveBlock(s.rows, db.blockId) == w.rows && RemoveKeys(s.keys, db.blockId) == w.keys
            && ClearFiles(s.files, db.blockId, s.rows[SliceId(db.blockId, 1)].sliceSize) == w.files
  {
    var b, head := db.blockId, s.rows[SliceId(db.blockId, 1)];
    assert HeadRow(s.rows, b) == head;
    assert BlockContents(s.rows, {b}) == ContentNames(b, head.sliceSize);
  }

  /** A file outside the removed blocks keeps its content: content names never meet across blocks. */
  lemma OtherFilesUntouched(s: Store, env: Env, bs: set<string>, blockId: string, n: nat)
    requires HaveHeads(s.rows, bs) && blockId !in bs
    ensures var name := ContentName(blockId, n);
            var files := Without(s, env, bs).files;
            (name in files <==> name in s.files) && (name in s.files ==> files[name] == s.files[name])
  {
    var name := ContentName(blockId, n);
    forall b | b in bs
      ensures name !in ContentNames(b, HeadRow(s.rows, b).sliceSize)
    {
      NameOfOther(b, HeadRow(s.rows, b).sliceSize, blockId, n);
    }
  }

  lemma NameOfOther(b: string, size: nat, blockId: string, n: nat)
    requires b != blockId
    ensures ContentName(blockId, n) !in ContentNames(b, size)
  {
    NameListedExactly(b, size, SliceId(blockId, n));
  }
}
