/** What each operation on the block store does to the four tables, as functions on their values.
    The class in DataBlockService.dfy is proved to compute these; WritePaths, IndexAgreement, Expiry and StoreRuns prove
    what they mean. */
module BlockStore {
  import opened Text
  import opened CacheKeys
  import opened BlockModel
  import opened PeerTransactions

  datatype Outcome = Outcome(store: Store, result: Result)

  /** What the guards of `StoreValue` decide before anything is written. */
  datatype Verdict =
    | Refuse(error: string)
    | Ignore
    | Delete(prior: DataBlock)
    | Write(oldSize: nat)

  /** The owner may replace a slice; a chat message may also be deleted by the peer it was sent to. */
  predicate OwnerAllowed(prior: DataBlock, db: DataBlock) {
    if db.blockType == TYPE_P2P_CHAT && db.transportPayload == "" then prior.businessNumber == db.peerId
    else prior.peerId == db.peerId
  }

  function SignedText(db: DataBlock): string {
    if db.transportPayload != "" then db.transportPayload
    else if db.expireDate > 0 then Dec(db.expireDate) + db.peerId
    else ""
  }

  predicate SignatureHolds(env: Env, prior: DataBlock, db: DataBlock) {
    SignedText(db) != "" ==> env.verify(prior.peerId, SignedText(db), db.signature)
  }

  function Judge(s: Store, env: Env, db: DataBlock): Verdict {
    if db.blockId == "" then Refuse("NoBlockId")
    else if db.sliceNumber == 0 then Refuse("NoSliceNumber")
    else if db.businessNumber == "" then Refuse("NoBusinessNumber")
    else if SliceOf(db) in s.rows then
      var prior := s.rows[SliceOf(db)];
      if !OwnerAllowed(prior, db) then Refuse("InconsistentDataBlockPeerId")
      else if !env.hasPublicKey(prior.peerId) then Refuse("GetPublicKey failure")
      else if !SignatureHolds(env, prior, db) then Refuse("SignatureVerifyFailure")
      else if db.createTimestamp <= prior.createTimestamp then
        Refuse("can't replace a newer value with an older value")
      else if db.transportPayload != "" then Write(prior.sliceSize)
      else if db.sliceNumber == 1 then Delete(prior)
      else Ignore
    else if db.transportPayload != "" then Write(0)
    else Ignore
  }

  predicate Spills(db: DataBlock) { |db.transportPayload| > PAYLOAD_LIMIT }

  /** The block as `StoreValue` leaves it in the caller's hands: a spilled payload is emptied. */
  function AfterSpill(db: DataBlock): DataBlock {
    if Spills(db) then db.(transportPayload := "") else db
  }

  function SpillFile(files: Files, db: DataBlock): Files {
    if Spills(db) then files[ContentName(db.blockId, db.sliceNumber) := db.transportPayload] else files
  }

  function RowOf(db: DataBlock): DataBlock { AfterSpill(db).(transactionKeys := []) }

  predicate KeyValid(blockId: string, tk: TransactionKey) { tk.blockId == blockId && tk.peerId != "" }

  /** The loop that saves transaction keys and stops at the first invalid one. */
  function SaveKeys(keys: KeyTable, blockId: string, tks: seq<TransactionKey>): KeyTable
    decreases |tks|
  {
    if tks == [] || !KeyValid(blockId, tks[0]) then keys
    else SaveKeys(keys[KeyId(blockId, tks[0].peerId) := tks[0]], blockId, tks[1..])
  }

  function KeysVerdict(blockId: string, tks: seq<TransactionKey>): Result {
    if tks == [] then Ok
    else if tks[0].blockId != blockId then Err("InvalidTKBlockId")
    else if tks[0].peerId == "" then Err("NoTKPeerId")
    else KeysVerdict(blockId, tks[1..])
  }

  /** Dropping a whole block: its files, rows, keys, and the entries of the slices its first slice counts. */
  function DropBlock(s: Store, env: Env, cause: DataBlock, sliceSize: nat, unindex: bool): Outcome {
    Outcome(
      Store(RemoveBlock(s.rows, cause.blockId), RemoveKeys(s.keys, cause.blockId),
            if unindex then RemoveEntries(s.entries, env, cause, 1, sliceSize) else s.entries,
            ClearFiles(s.files, cause.blockId, sliceSize)),
      if unindex then RemovalVerdict(env, cause, 1, sliceSize) else Ok)
  }

  /** What a first slice does after its row is written: cut off surplus slices, then save the keys. */
  function HeadWork(s: Store, env: Env, db: DataBlock, oldSize: nat): Outcome {
    var cut := db.sliceSize < oldSize;
    var s1 := if cut then
                s.(rows := Truncate(s.rows, db.blockId, db.sliceSize),
                   entries := RemoveEntries(s.entries, env, db, db.sliceSize + 1, oldSize))
              else s;
    var v := if cut then RemovalVerdict(env, db, db.sliceSize + 1, oldSize) else Ok;
    if v.Err? then Outcome(s1, v)
    else Outcome(s1.(keys := SaveKeys(s1.keys, db.blockId, db.transactionKeys)),
                 KeysVerdict(db.blockId, db.transactionKeys))
  }

  function IndexWork(s: Store, env: Env, db: DataBlock): Outcome {
    if db.blockType == TYPE_CHAT_ATTACH then Outcome(s, Ok)
    else Outcome(s.(entries := IndexPut(s.entries, EntryFor(env, db))), PutVerdict(EntryFor(env, db)))
  }

  /** Writing a slice: spill, row, then the first slice's extra work, then the index entry. */
  function WriteSlice(s: Store, env: Env, db: DataBlock, oldSize: nat): Outcome {
    var s1 := s.(files := SpillFile(s.files, db), rows := s.rows[SliceOf(db) := RowOf(db)]);
    if db.sliceNumber == 1 then
      var h := HeadWork(s1, env, db, oldSize);
      if h.result.Err? then h else IndexWork(h.store, env, db)
    else IndexWork(s1, env, db)
  }

  /** `DataBlockService.StoreValue`. */
  function StoreValue(s: Store, env: Env, db: DataBlock): Outcome {
    match Judge(s, env, db)
    case Refuse(e) => Outcome(s, Err(e))
    case Ignore => Outcome(s, Ok)
    case Delete(prior) => DropBlock(s, env, db, prior.sliceSize, true)
    case Write(oldSize) => WriteSlice(s, env, db, oldSize)
  }

  /** One turn of the entity loop of `XormDatastore.Put`: no timestamp, signature or business-number guard. */
  function PutOne(s: Store, env: Env, db: DataBlock): Outcome {
    var found := SliceOf(db) in s.rows;
    if found && !OwnerAllowed(s.rows[SliceOf(db)], db) then Outcome(s, Err("InconsistentDataBlockPeerId"))
    else if db.transportPayload == "" then
      if found && db.sliceNumber == 1 then DropBlock(s, env, db, s.rows[SliceOf(db)].sliceSize, true)
      else Outcome(s, Ok)
    else WriteSlice(s, env, db, if found then s.rows[SliceOf(db)].sliceSize else 0)
  }

  /** `XormDatastore.Put` over the entities of one value. */
  function PutAll(s: Store, env: Env, dbs: seq<DataBlock>): Outcome {
    if dbs == [] then Outcome(s, Ok)
    else
      var p := PutAll(s, env, dbs[..|dbs| - 1]);
      if p.result.Err? then p else PutOne(p.store, env, dbs[|dbs| - 1])
  }

  /** The conditions the operations search the block table with. */
  datatype Condition =
    | OfBlock(blockId: string)
    | OfOwner(peerId: string)
    | ExpiredBy(now: int)
    | OfSlice(blockId: string, sliceNumber: nat)

  predicate Matches(c: Condition, row: DataBlock) {
    match c
    case OfBlock(b) => row.blockId == b
    case OfOwner(p) => row.peerId == p
    case ExpiredBy(now) => row.expireDate <= now
    case OfSlice(b, n) => (b == "" || row.blockId == b) && (n == 0 || row.sliceNumber == n)
  }

  /** Every row is stored under its own block id and slice number. */
  predicate WellKeyed(rows: Rows) { forall id | id in rows :: SliceOf(rows[id]) == id }

  /** `found` lists, in some order, the rows that meet the condition. */
  ghost predicate Lists(found: seq<DataBlock>, rows: Rows, c: Condition) {
    && (forall i | 0 <= i < |found| ::
          SliceOf(found[i]) in rows && rows[SliceOf(found[i])] == found[i] && Matches(c, found[i]))
    && (forall id | id in rows && Matches(c, rows[id]) :: rows[id] in found)
    && (forall i, j | 0 <= i < j < |found| :: found[i] != found[j])
  }

  /** A row as a reader sees it, its payload brought back from its file. */
  function Load(files: Files, row: DataBlock): DataBlock {
    row.(transportPayload := ReadPayload(files, row))
  }

  function LoadAll(files: Files, found: seq<DataBlock>): seq<DataBlock> {
    seq(|found|, i requires 0 <= i < |found| => Load(files, found[i]))
  }

  /** `DataBlockValidator.Select`: 1 keeps the existing value, 0 takes the new one. */
  function Select(db: DataBlock, existing: seq<DataBlock>): int {
    if existing == [] then 0
    else if existing[0].blockId == db.blockId && existing[0].sliceNumber == db.sliceNumber &&
            db.createTimestamp <= existing[0].createTimestamp then 1
    else Select(db, existing[1..])
  }

  /** `PutLocal` of one block, given the order in which the rows of its key are found. */
  function PutLocal(s: Store, env: Env, db: DataBlock, found: seq<DataBlock>): Outcome {
    var existing := LoadAll(s.files, found);
    if existing != [] && Select(db, existing) != 0 then Outcome(s, Ok) else PutAll(s, env, [db])
  }

  /** One turn of the loop of `DeleteExpiredDB`. */
  function ExpireOne(s: Store, env: Env, row: DataBlock): Outcome {
    if row.sliceNumber == 1 then DropBlock(s, env, row, row.sliceSize, row.blockType != TYPE_CHAT_ATTACH)
    else Outcome(s, Ok)
  }

  function ExpireAll(s: Store, env: Env, found: seq<DataBlock>): Outcome {
    if found == [] then Outcome(s, Ok)
    else
      var p := ExpireAll(s, env, found[..|found| - 1]);
      if p.result.Err? then p else ExpireOne(p.store, env, found[|found| - 1])
  }
}
