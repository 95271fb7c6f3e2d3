/** The entities of the block store and the four tables they live in. */
module BlockModel {
  import opened CacheKeys

  const TYPE_CHAT_ATTACH := "ChatAttach"
  const TYPE_COLLECTION := "Collection"
  const TYPE_P2P_CHAT := "P2pChat"
  const TYPE_GROUP_FILE := "GroupFile"
  const TYPE_CHANNEL := "Channel"
  const TYPE_CHANNEL_ARTICLE := "ChannelArticle"

  const STATUS_EFFECTIVE := "Effective"

  /** A payload text longer than this is kept in a file, not in the row. */
  const PAYLOAD_LIMIT := 32 * 1024

  datatype Result = Ok | Err(error: string)

  datatype TransactionKey = TransactionKey(blockId: string, peerId: string, payloadKey: string)

  /** One slice of a block, as it travels. A row of the table is one with no transaction keys. */
  datatype DataBlock = DataBlock(
    blockId: string,
    sliceNumber: nat,
    sliceSize: nat,
    blockType: string,
    businessNumber: string,
    peerId: string,
    transportPayload: string,
    payloadHash: string,
    signature: string,
    transactionKeys: seq<TransactionKey>,
    createTimestamp: nat,
    expireDate: int,
    primarySequenceId: nat,
    primaryPeerId: string,
    peerIds: string,
    status: string)

  /** An entry of the peer-transaction index, or the order to remove one. */
  datatype PeerTransaction = PeerTransaction(
    transactionType: string,
    srcPeerId: string,
    targetPeerId: string,
    blockId: string,
    sliceNumber: nat,
    businessNumber: string,
    createTimestamp: nat,
    deleted: bool)

  datatype SliceId = SliceId(blockId: string, sliceNumber: nat)
  datatype KeyId = KeyId(blockId: string, peerId: string)
  datatype EntryId = EntryId(targetPeerId: string, blockId: string, sliceNumber: nat, businessNumber: string)

  function SliceOf(db: DataBlock): SliceId { SliceId(db.blockId, db.sliceNumber) }

  function EntryOf(pt: PeerTransaction): EntryId {
    EntryId(pt.targetPeerId, pt.blockId, pt.sliceNumber, pt.businessNumber)
  }

  type Rows = map<SliceId, DataBlock>
  type KeyTable = map<KeyId, TransactionKey>
  type EntryTable = map<EntryId, PeerTransaction>
  type Files = map<string, string>

  datatype Store = Store(rows: Rows, keys: KeyTable, entries: EntryTable, files: Files)

  const EMPTY_STORE := Store(map[], map[], map[], map[])

  type PeerId = s: string | s != "" witness "peer"

  /** What a node brings to its store: its own id, and the signature check as an oracle. */
  datatype Env = Env(myself: PeerId, hasPublicKey: string -> bool, verify: (string, string, string) -> bool)

  function TransactionType(blockType: string): string { "DataBlock-" + blockType }

  function RemoveBlock(rows: Rows, blockId: string): Rows {
    map id | id in rows && id.blockId != blockId :: rows[id]
  }

  function RemoveKeys(keys: KeyTable, blockId: string): KeyTable {
    map id | id in keys && id.blockId != blockId :: keys[id]
  }

  /** `Delete ... SliceNumber > n`. */
  function Truncate(rows: Rows, blockId: string, n: nat): Rows {
    map id | id in rows && !(id.blockId == blockId && id.sliceNumber > n) :: rows[id]
  }

  /** The content names of slices 1 to n. */
  function ContentNames(blockId: string, n: nat): set<string> {
    set i: nat | 1 <= i <= n :: ContentName(blockId, i)
  }

  lemma NameListedExactly(b: string, size: nat, id: SliceId)
    ensures ContentName(id.blockId, id.sliceNumber) in ContentNames(b, size) <==>
            id.blockId == b && 1 <= id.sliceNumber <= size
  {
    forall i: nat | SliceId(b, i) != id ensures ContentName(b, i) != ContentName(id.blockId, id.sliceNumber) {
      NamesApart(b, i, id.blockId, id.sliceNumber);
    }
  }

  function ClearFiles(files: Files, blockId: string, n: nat): Files {
    files + map name | name in ContentNames(blockId, n) :: ""
  }

  /** The payload a reader sees for a row. */
  function ReadPayload(files: Files, row: DataBlock): string {
    if row.transportPayload != "" then row.transportPayload
    else
      var name := ContentName(row.blockId, row.sliceNumber);
      if name in files then files[name] else ""
  }
}
