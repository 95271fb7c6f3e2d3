/** Which transactions the index accepts, and under which network keys it publishes them. */
module PeerTransactions {
  import opened BlockModel

  const KIND_SRC := "SrcPeerId"
  const KIND_TARGET := "TargetPeerId"
  const KIND_P2P_CHAT := "BusinessNumber"
  const KIND_GROUP_FILE := "BusinessNumber"
  const KIND_CHANNEL := "TransactionType"
  const KIND_CHANNEL_ARTICLE := "ParentBusinessNumber"

  function SrcKey(id: string): string { "/peerTransactionSrc/" + id }
  function TargetKey(id: string): string { "/peerTransactionTarget/" + id }
  function P2pChatKey(id: string): string { "/peerTransactionP2PChat/" + id }
  function GroupFileKey(id: string): string { "/peerTransactionGroupFile/" + id }
  function ChannelKey(id: string): string { "/peerTransactionChannel/" + id }
  function ChannelArticleKey(id: string): string { "/peerTransactionChannelArticle/" + id }

  datatype KeyResult = Key(key: string) | NoKey(error: string)

  /** The branch `PutPT` takes on the kind. */
  function KeyFor(pt: PeerTransaction, kind: string): KeyResult {
    if kind == KIND_SRC then
      if pt.srcPeerId == "" then NoKey("NullSrcPeerId") else Key(SrcKey(pt.srcPeerId))
    else if kind == KIND_TARGET then
      if pt.targetPeerId == "" then NoKey("NullTargetPeerId") else Key(TargetKey(pt.targetPeerId))
    else if kind == KIND_P2P_CHAT then
      if pt.businessNumber == "" then NoKey("NullBusinessNumber") else Key(P2pChatKey(pt.businessNumber))
    else if kind == KIND_GROUP_FILE then
      if pt.businessNumber == "" then NoKey("NullBusinessNumber") else Key(GroupFileKey(pt.businessNumber))
    else if kind == KIND_CHANNEL then
      Key(ChannelKey(TransactionType(TYPE_CHANNEL)))
    else if kind == KIND_CHANNEL_ARTICLE then
      if pt.businessNumber == "" then NoKey("NullBusinessNumber") else Key(ChannelArticleKey(pt.businessNumber))
    else NoKey("InvalidPeerTransactionKeyKind")
  }

  /** The kinds `PutPTs` puts a transaction under, in order; none for an unknown type. */
  function KindsOf(transactionType: string): seq<string> {
    if transactionType == TransactionType(TYPE_COLLECTION) then [KIND_SRC, KIND_TARGET]
    else if transactionType == TransactionType(TYPE_P2P_CHAT) then [KIND_P2P_CHAT]
    else if transactionType == TransactionType(TYPE_GROUP_FILE) then [KIND_GROUP_FILE]
    else if transactionType == TransactionType(TYPE_CHANNEL) then [KIND_CHANNEL]
    else if transactionType == TransactionType(TYPE_CHANNEL_ARTICLE) then [KIND_CHANNEL_ARTICLE]
    else []
  }

  /** The local write behind one published key. */
  function PutEntry(entries: EntryTable, pt: PeerTransaction): EntryTable {
    if pt.deleted then entries - {EntryOf(pt)} else entries[EntryOf(pt) := pt]
  }

  /** What `PutPTs` answers. */
  function PutVerdict(pt: PeerTransaction): Result {
    var kinds := KindsOf(pt.transactionType);
    if kinds == [] then Err("InvalidTransactionType")
    else if kinds[0] == KIND_SRC then
      if pt.srcPeerId == "" then Err("NullSrcPeerId")
      else if pt.targetPeerId == "" then Err("NullTargetPeerId")
      else Ok
    else if kinds[0] == KIND_CHANNEL then Ok
    else if pt.businessNumber == "" then Err("NullBusinessNumber")
    else Ok
  }

  /** Put under its source and then refused under its target, for lack of one. */
  predicate HalfPut(pt: PeerTransaction) {
    pt.transactionType == TransactionType(TYPE_COLLECTION) && pt.srcPeerId != "" && pt.targetPeerId == ""
  }

  /** `PutPTs` writes its entry when it answers Ok, and when only its second put is refused. */
  function IndexPut(entries: EntryTable, pt: PeerTransaction): EntryTable {
    if PutVerdict(pt).Ok? || HalfPut(pt) then PutEntry(entries, pt) else entries
  }

  /** A block type whose transactions the index knows. */
  predicate Indexable(blockType: string) { KindsOf(TransactionType(blockType)) != [] }

  lemma KindsDiffer()
    ensures KIND_SRC != KIND_TARGET && KIND_P2P_CHAT !in {KIND_SRC, KIND_TARGET}
    ensures KIND_CHANNEL !in {KIND_SRC, KIND_TARGET, KIND_P2P_CHAT}
    ensures KIND_CHANNEL_ARTICLE !in {KIND_SRC, KIND_TARGET, KIND_P2P_CHAT, KIND_CHANNEL}
  {
    assert KIND_SRC[0] == 'S' && KIND_TARGET[0] == 'T' && KIND_P2P_CHAT[0] == 'B' && KIND_CHANNEL_ARTICLE[0] == 'P';
    assert KIND_TARGET[1] == 'a' && KIND_CHANNEL[0] == 'T' && KIND_CHANNEL[1] == 'r';
  }

  /** The index takes what is written for a block: it knows the type, a collection names its source, and a block of the
      other types, channels apart, has a business number. */
  predicate IndexTakes(db: DataBlock) {
    && Indexable(db.blockType)
    && (db.blockType == TYPE_COLLECTION ==> db.peerId != "")
    && (db.blockType != TYPE_COLLECTION && db.blockType != TYPE_CHANNEL ==> db.businessNumber != "")
  }

  lemma AttachmentsAreUnknown()
    ensures !Indexable(TYPE_CHAT_ATTACH)
  {
    var t := TransactionType(TYPE_CHAT_ATTACH);
    assert t[10..] == TYPE_CHAT_ATTACH;
    assert TransactionType(TYPE_COLLECTION)[11] == 'o' && TransactionType(TYPE_P2P_CHAT)[10] == 'P';
    assert TransactionType(TYPE_GROUP_FILE)[10] == 'G' && t[10] == 'C' && t[11] == 'h' && t[12] == 'a' && t[13] == 't';
    assert TransactionType(TYPE_CHANNEL)[13] == 'n' && TransactionType(TYPE_CHANNEL_ARTICLE)[13] == 'n';
  }

  lemma TypeOfText(x: string, y: string)
    ensures TransactionType(x) == TransactionType(y) <==> x == y
  {
    assert TransactionType(x)[10..] == x && TransactionType(y)[10..] == y;
  }

  /** And that is all that decides: whatever is written to a node's index for a block is taken or refused by it. */
  lemma IndexTakesExactly(db: DataBlock, pt: PeerTransaction)
    requires pt.transactionType == TransactionType(db.blockType) && pt.srcPeerId == db.peerId
    requires pt.targetPeerId != "" && pt.businessNumber == db.businessNumber
    ensures PutVerdict(pt).Ok? <==> IndexTakes(db)
  {
    TypeOfText(db.blockType, TYPE_COLLECTION);
    TypeOfText(db.blockType, TYPE_CHANNEL);
    KindsDiffer();
    TypesDiffer();
  }

  /** A refused transaction leaves the index as it was, except that a collection without a target has been put under its
      source by then. */
  lemma RefusedChangesNothingExactly(entries: EntryTable, pt: PeerTransaction)
    requires PutVerdict(pt).Err?
    ensures pt.transactionType == TransactionType("Collection") && pt.srcPeerId != "" && pt.targetPeerId == "" ==>
              IndexPut(entries, pt) == if pt.deleted then entries - {EntryOf(pt)} else entries[EntryOf(pt) := pt]
    ensures !(pt.transactionType == TransactionType("Collection") && pt.srcPeerId != "" && pt.targetPeerId == "") ==>
              IndexPut(entries, pt) == entries
  {
  }

  /** The order to remove the entry of slice `i`, written for `db`. */
  function Tombstone(env: Env, db: DataBlock, i: nat): PeerTransaction {
    PeerTransaction(TransactionType(db.blockType), db.peerId, env.myself, db.blockId, i, db.businessNumber, 0, true)
  }

  /** The entry written for a stored slice. */
  function EntryFor(env: Env, db: DataBlock): PeerTransaction {
    PeerTransaction(TransactionType(db.blockType), db.peerId, env.myself, db.blockId, db.sliceNumber, db.businessNumber,
                    db.createTimestamp, false)
  }

  function EntryIds(env: Env, db: DataBlock, lo: nat, hi: nat): set<EntryId> {
    set i: nat | lo <= i <= hi :: EntryId(env.myself, db.blockId, i, db.businessNumber)
  }

  /** The loop that removes the entries of slices lo to hi and stops at the first refusal. */
  function RemoveEntries(entries: EntryTable, env: Env, db: DataBlock, lo: nat, hi: nat): EntryTable {
    if lo <= hi && PutVerdict(Tombstone(env, db, lo)).Err? then entries else entries - EntryIds(env, db, lo, hi)
  }

  function RemovalVerdict(env: Env, db: DataBlock, lo: nat, hi: nat): Result {
    if lo <= hi then PutVerdict(Tombstone(env, db, lo)) else Ok
  }

  // ----- the network keys -----

  /** The keys that the kinds named in `PutPTs` stand for. */
  function IntendedKeys(pt: PeerTransaction): seq<string> {
    if pt.transactionType == TransactionType(TYPE_COLLECTION) then
      ["/peerTransactionSrc/" + pt.srcPeerId, "/peerTransactionTarget/" + pt.targetPeerId]
    else if pt.transactionType == TransactionType(TYPE_P2P_CHAT) then ["/peerTransactionP2PChat/" + pt.businessNumber]
    else if pt.transactionType == TransactionType(TYPE_GROUP_FILE) then ["/peerTransactionGroupFile/" + pt.businessNumber]
    else if pt.transactionType == TransactionType(TYPE_CHANNEL) then
      ["/peerTransactionChannel/" + TransactionType(TYPE_CHANNEL)]
    else if pt.transactionType == TransactionType(TYPE_CHANNEL_ARTICLE) then
      ["/peerTransactionChannelArticle/" + pt.businessNumber]
    else []
  }

  /** A transaction is published under its intended keys, in order. */
  ghost predicate PublishedAsIntended(pt: PeerTransaction) {
    var kinds, keys := KindsOf(pt.transactionType), IntendedKeys(pt);
    |kinds| == |keys| && forall i | 0 <= i < |kinds| :: KeyFor(pt, kinds[i]) == Key(keys[i])
  }

  /** The types of the index are told apart by one letter each. */
  lemma TypesDiffer()
    ensures TransactionType(TYPE_P2P_CHAT) != TransactionType(TYPE_COLLECTION)
    ensures TransactionType(TYPE_GROUP_FILE) !in {TransactionType(TYPE_COLLECTION), TransactionType(TYPE_P2P_CHAT)}
    ensures TransactionType(TYPE_CHANNEL) !in
            {TransactionType(TYPE_COLLECTION), TransactionType(TYPE_P2P_CHAT), TransactionType(TYPE_GROUP_FILE)}
  {
    assert TransactionType(TYPE_CHANNEL)[10] == 'C' && TransactionType(TYPE_CHANNEL)[11] == 'h';
    assert TransactionType(TYPE_COLLECTION)[11] == 'o';
    assert TransactionType(TYPE_COLLECTION)[10] == 'C' && TransactionType(TYPE_P2P_CHAT)[10] == 'P';
    assert TransactionType(TYPE_GROUP_FILE)[10] == 'G';
  }

  /** The network key of a group file is the one for chats: the two kinds are the same text. */
  lemma GroupFilePublishedAsChat(pt: PeerTransaction)
    requires pt.transactionType == TransactionType(TYPE_GROUP_FILE) && pt.businessNumber != ""
    ensures KindsOf(pt.transactionType) == [KIND_GROUP_FILE]
    ensures KeyFor(pt, KIND_GROUP_FILE) == Key(P2pChatKey(pt.businessNumber)) != Key(GroupFileKey(pt.businessNumber))
  {
    TypesDiffer();
    KindsDiffer();
    assert P2pChatKey(pt.businessNumber)[16] == 'P' && GroupFileKey(pt.businessNumber)[16] == 'G';
  }

  /** Every transaction the index accepts is published under its intended keys, except exactly those of group files. */
  lemma PublishedAsIntendedExactly(pt: PeerTransaction)
    requires PutVerdict(pt).Ok?
    ensures PublishedAsIntended(pt) <==> pt.transactionType != TransactionType(TYPE_GROUP_FILE)
  {
    KindsDiffer();
    TypesDiffer();
    if pt.transactionType == TransactionType(TYPE_GROUP_FILE) {
      assert KindsOf(pt.transactionType)[0] == KIND_GROUP_FILE && IntendedKeys(pt) == [GroupFileKey(pt.businessNumber)];
      GroupFilePublishedAsChat(pt);
    }
  }
}
