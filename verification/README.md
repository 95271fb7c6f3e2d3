# A verified model of a chat and collaboration node

This project models, in Dafny, the five parts of the node whose behaviour is decided by their own logic rather than by
a library, and proves what each of them keeps.

- **The block store** (`Text`, `CacheKeys`, `BlockModel`, `PeerTransactions`, `BlockStore`, `DataBlockService`,
  `StoreOutcomes`, `WritePaths`, `IndexAgreement`, `Expiry`, `StoreRuns`). Four tables, changed in place: block rows,
  transaction keys, the peer-transaction index and the files of spilled payloads. There are two write paths (the
  service's `StoreValue`, and the network's `PutLocal` and `XormDatastore.Put`), a delete, a shrink and an expiry sweep.
  `BlockStore` says what each operation does to the tables as a function; the class `DataBlockService` runs the loops
  and is proved to do just that; the other modules prove what follows.
- **The "std" replication protocol** (`StdConsensus`, `ConsensusRuns`, `SingleProposal`, `ReplicaStores`,
  `StaleReplies`, `ConsensusLimits`). A primary caches a slice and asks its peers; they store it and reply; the primary
  commits at a quorum. The three handlers are methods; a transition system lets messages arrive in any order, repeatedly
  or never.
- **Fragmentation** (`MessageSlice`). A data-channel message is cut into slices with a 12-byte header and put together
  again by a receiver that sees the slices in any order.
- **Registries** (`Sfu`, `SfuMesh`, `SfuPool`, `PeerConnectionPool`). Rooms with their mesh of publishers and
  subscribers, the pool of rooms, and the two-level table of peer connections.
- **Two text protocols** (`SipMessage`, section 7 of RFC 3261, and `HttpPipeline` with `HttpResponses`, sections 6.3 and
  9.3.2 of RFC 9112).

Every method is tied by its `ensures` to a function, or a relation where the source leaves a choice open (the order of
a map walk, a random pick, a track that may fail). The results are about those functions and relations, over all inputs
and all runs.

`dafny verify dfyconfig.toml` checks the whole project. `hide` statements keep definitions out of proofs that do not
need them.

## What the model shows about the program

Where a property one would expect does not hold, the code is kept as it is, and the model has the exact condition or an
input that shows the failure.

- A large chat message that was created is reported to the client as deleted: storing it empties the payload that the
  notice looks at (`DeleteNoticeExactly`, `LargeChatReportedDeleted`).
- If a slice is proposed a second time before the first round ends, replies to the first version count for the second.
  In every reachable system where enough listed peers have answered some version, heard by the primary or not, proposing
  a version that nobody holds can be followed by deliveries that commit it (`StaleRepliesCommit`, with one whole run in
  `StaleReplyCommits`); and nothing but a second proposal has that effect (`OnlyReproposalUnbacks`).
- No stored slice is changed or removed by a direct store without the signature of the owner of that slice, or of its
  block's first slice, over the payload or over expiry date and sender; but an order to delete that has no expiry date
  needs no signature (`ForgedChangesNothing`, `ChangesAreAuthorised`). What comes over the network is held against the
  owner's name alone (`NetworkChangesAreOwned`). Over whole runs every change and loss is one of these, or an expiry
  (`LossesAreExplained`, `HeldUntilReplaced`).
- An accepted write can be read back, except that a first slice of size 0 in place of one that counted something cuts
  itself off, and may answer Ok (`WrittenIsHeldExactly`, `WriteAnswersOkExactly`). An attachment that shrinks is
  written and answered with an error (`AttachmentAnswersOkExactly`).
- Written under the owner's key, a deletion by a chat's receiver skips the timestamp test (`OwnerKeyAgreesExactly`).
- An accepted deletion always drops the rows, but answers Ok if and only if its first slice counts nothing or the index
  takes its orders: it knows the type, a collection names its source, a block of the other types, channels apart, has a
  business number (`DeleteAnswersOkExactly`). Deleting an attachment therefore ends in an error (`AttachmentDeleteFails`).
- The expiry sweep stops at the first slice whose orders the index refuses, after dropping its block's rows. It removes
  the rows of precisely the expired blocks if and only if no first slice is listed behind a refused one (`ExpiryExact`);
  a collection without a source, which is kept although its store answers an error, is enough to leave others behind
  (`RefusedStopsSweep`).
- Index and rows, once they agree, agree after a write of a first slice if and only if: it does not shrink its block and
  its keys are valid; or it does, no slice is stored beyond the old size, and its keys are valid exactly when its size
  is not 0. A later slice always keeps the agreement (`WriteAgreesExactly`). A deletion or an expiry keeps it if and
  only if every stored slice of the block is counted by its first one (`DropAgreesExactly`, `SweepAgreesExactly`). So a
  slice that is not counted is harmless when it is stored, and leaves its entry behind when the block is dropped
  (`UncountedLeavesOrphan`) or shrinks (`UncountedThenShrink`). Over whole runs, index and rows agree all the way if and
  only if every step meets its condition (`AgreesThroughoutExactly`).
- The key kinds of chat and of group files are the same text, so a group file is published under the chat key; every
  other type is published under its own (`PublishedAsIntendedExactly`).
- An HTTP request makes the parser slice out of range if and only if its target has a '?' (`QueryPanics`), and a read
  that ends inside a request loses the bytes it brought (`CutRequestUnanswered`, `Decode`).
- A read that ends inside a request line is an error only until the codec has read its first one; from then on the same
  bytes are dropped in silence (`MalformedExactly`).
- A SIP header whose value holds ": " is cut short there (`HeaderLineExactly`, `HeaderValueIsCut`), and the parser
  panics on exactly the texts with a header line that has no ": " (`ReadPanicsExactly`).
- A connection made for an offer or a candidate is not given that signal, as it is stored in a variable of an inner
  block (`OnWebrtcSignal`); one whose set-up fails stays in the pool (`CreateIfNotExist`).
- A message arrives if and only if it is not empty and its slices can be numbered with 32 bits (`ArrivesExactly`). That
  takes the three 32-bit fields that the offsets in `merge` are meant for. As the code is written, `encoding/binary`
  refuses platform integers on both sides: slices are sent as bare chunks and nothing is ever delivered
  (`WrittenNeverDelivers`).

## Model

| member | source | states |
|---|---|---|
| CacheKeys.DataKeyInjective | consensus/default.go:39-42 | The block cache key determines block id and slice number, for every block id, even one with colons in it. |
| CacheKeys.ContentNameInjective | p2p/chain/service/datablock.go:297 | The content name determines block id and slice number, for every block id. |
| CacheKeys.LogKeyInjective | consensus/default.go:30-33 | The six-field log key determines all six fields once the fields other than the block id have no colon. |
| CacheKeys.LogKeyNeedsColonFree | consensus/default.go:30-33 | Without that condition it does not: a colon in the primary peer id, the peer id or the status lets two different logs share a key. |
| CacheKeys.DataKeyIsNotLogKey | consensus/default.go:30-42 | A block key is never a log key, so blocks and logs can share one cache. |
| Text.SplitJoin | consensus/std/default.go:86 | Splitting a joined list gives the list back when no part makes a separator of its own. |
| Text.JoinSplit | webrtc/sip/softphone/sipmessage.go:69-70 | Joining a split text gives the text back, whatever the text. |
| Text.DecShifts | transport/http/server.go:123 | A printed number is its decimal digits, the most significant first. |
| PeerTransactions.GroupFilePublishedAsChat | p2p/chain/service/peertransaction.go:179-216 | A group-file transaction goes under the chat key of its business number, not the group-file key. |
| PeerTransactions.PublishedAsIntendedExactly | p2p/chain/service/peertransaction.go:170-233 | A transaction the index accepts is published under the keys its type is meant for, in order, if and only if it is not a group file's. |
| PeerTransactions.IndexTakesExactly | p2p/chain/service/peertransaction.go:170-232 | What a node writes to its index for a block is taken if and only if the type is known, a collection names its source, and a block of the other types but channels has a business number. |
| PeerTransactions.RefusedChangesNothingExactly | p2p/chain/service/peertransaction.go:170-189 | A refused transaction changes nothing, except that a collection without a target has by then been put under its source. |
| DataBlockService.DataBlockService.PutPTs | p2p/chain/service/peertransaction.go:170-189 | Which key kinds a transaction is written under, and the index after it; an unknown type or a missing id is refused, a missing target only after the first of two writes. |
| DataBlockService.DataBlockService.PutPT | p2p/chain/service/peertransaction.go:191-234 | One index write: refused exactly when the id its key is made of is missing. |
| DataBlockService.DataBlockService.PutEntryLocal | libp2p/datastore/xorm/default.go:106-221 | A deleted transaction removes its entry, any other replaces it. |
| DataBlockService.DataBlockService.ClearContents | p2p/chain/service/datablock.go:259-262 | Exactly the files of slices 1 to n are emptied. |
| DataBlockService.DataBlockService.RemoveRange | p2p/chain/service/datablock.go:271-284 | Exactly the entries of a range of slices leave the index, or none when the first is refused. |
| DataBlockService.DataBlockService.SaveTransactionKeys | p2p/chain/service/datablock.go:333-361 | The keys before the first invalid one are saved, and its error is returned. |
| DataBlockService.DataBlockService.Drop | p2p/chain/service/datablock.go:259-284 | Files, rows and keys of the block go, then the index entries of its counted slices up to a refusal. |
| DataBlockService.DataBlockService.StoreValue | p2p/chain/service/datablock.go:190-420 | The result, the four tables and the caller's block after every branch: refusals, stale, delete, spill, shrink, write. |
| DataBlockService.DataBlockService.UpsertSlice | p2p/chain/service/datablock.go:306-413 | Row, surplus slices, keys and index entry of an accepted write. |
| DataBlockService.DataBlockService.XormPut | libp2p/datastore/xorm/default.go:72-327 | The tables after the entity loop, including where it stops at an error. |
| DataBlockService.DataBlockService.XormPutOne | libp2p/datastore/xorm/default.go:93-319 | One turn of that loop for a block. |
| DataBlockService.PutAllStops | libp2p/datastore/xorm/default.go:93-221 | Once a value of a list is answered with an error, none behind it is written. |
| DataBlockService.DataBlockService.GetLocal | libp2p/datastore/xorm/default.go:341-462 | The blocks under a key, in table order, each with its payload from row or file and, with slice 1, the keys of its block. |
| DataBlockService.DataBlockService.PutLocal | libp2p/dht/default.go:85-124 | The guarded write of a block: nothing when Select keeps the existing value, otherwise the datastore's Put. |
| DataBlockService.DataBlockService.PutLocalList | libp2p/dht/default.go:93-123 | The write of a list of blocks: refused, with nothing changed, where another list is stored under the key, and unguarded otherwise. |
| DataBlockService.DataBlockService.SelectLoop | libp2p/ns/default.go:333-341 | The scan over existing values computes Select. |
| DataBlockService.DataBlockService.DeleteExpiredDB | p2p/chain/service/datablock.go:449-490 | The tables after the sweep over the rows found, in any order. |
| DataBlockService.DataBlockService.QueryValue | p2p/chain/service/datablock.go:422-447 | The rows asked for, each with the payload of its row or file, and with its keys when slice 1 is asked for; a single slice asked for gives that slice alone, or nothing. |
| StoreOutcomes.UnacceptedChangesNothing | p2p/chain/service/datablock.go:190-288 | A call that misses an id, or the owner, key, signature or newer timestamp it needs, changes nothing and is answered with an error; an accepted one without a payload changes nothing unless it names a stored first slice. |
| StoreOutcomes.ForgedChangesNothing | p2p/chain/service/datablock.go:232-251 | An update or a dated deletion of a stored slice that its stored owner's key does not verify leaves all four tables as they were and is answered with an error. |
| StoreOutcomes.ChangesAreAuthorised | p2p/chain/service/datablock.go:219-331 | Whatever row a store changes or removes is of the block it names, and the call succeeds what was stored of the slice it names, which is that row or the first of its block: owner, signature and timestamp. |
| StoreOutcomes.NetworkChangesAreOwned | libp2p/datastore/xorm/default.go:146-191 | The same for a block from the network, where only the sender's name is held against the owner's. |
| StoreOutcomes.WrittenIsHeldExactly | p2p/chain/service/datablock.go:295-316 | An accepted write can be read back, every column and the payload from row or file, if and only if it is not a first slice of size 0 in place of one that counted something. |
| StoreOutcomes.WriteKeepsOthers | p2p/chain/service/datablock.go:295-331 | All other rows and files stay as they are, but for the slices of the block that a shrink no longer counts. |
| StoreOutcomes.WriteAnswersOkExactly | p2p/chain/service/datablock.go:310-413 | An accepted write answers Ok if and only if a first slice has valid keys, the index takes the orders of a shrink, and it takes the block unless that is an attachment. |
| StoreOutcomes.AttachmentAnswersOkExactly | p2p/chain/service/datablock.go:310-413 | An accepted write of an attachment leaves the index alone and answers Ok if and only if a first slice has valid keys and does not shrink its block. |
| StoreOutcomes.KeyIsFound | p2p/chain/service/datablock.go:333-361 | After the key loop the table has, for each peer of the block, the last key that came before the first invalid one, and for all else what it had. |
| StoreOutcomes.KeysAfterWrite | p2p/chain/service/datablock.go:310-361 | The keys after an accepted write: those, for a first slice whose shrink the index does not refuse, and otherwise the old ones. |
| StoreOutcomes.EntryAfterWrite | p2p/chain/service/datablock.go:317-413 | The index after an accepted write, entry by entry: the slice's own one with its type, source, target and timestamp, none for the slices cut off, and the others as they were. |
| StoreOutcomes.DeletedExactly | p2p/chain/service/datablock.go:256-287 | The four tables after an accepted deletion, slice by slice and entry by entry: what is gone, which files are empty, and that all else stays. |
| StoreOutcomes.OneBlockTouched | p2p/chain/service/datablock.go:190-420 | Neither write path touches rows, keys, entries or files of another block. |
| WritePaths.SelectFinds | libp2p/ns/default.go:318-342 | Select keeps the existing value if and only if one of the values found is as new for the same slice. |
| WritePaths.WritePathsAgree | libp2p/dht/default.go:85-124 | Under the block key, PutLocal and StoreValue leave the same four tables for every block, stale, deleting or shrinking; they differ only in the answer to a stale one. |
| WritePaths.OwnerKeyAgreesExactly | libp2p/datastore/xorm/default.go:146-191 | Under the owner key they agree if and only if the block is not a stale deletion by the receiver. |
| WritePaths.OwnerKeyCanDisagree | libp2p/datastore/xorm/default.go:150-153 | A store, a listing and a signed block on which the two paths leave different stores. |
| WritePaths.DeleteAnswersOkExactly | p2p/chain/service/datablock.go:256-287 | An accepted deletion answers Ok if and only if the stored slice counts nothing or the index takes its orders; the rows are gone either way. |
| WritePaths.AttachmentDeleteFails | p2p/chain/service/datablock.go:256-284 | So deleting an attachment that counts a slice always ends in an error after its rows are gone. |
| WritePaths.SomeDeleteFails | p2p/chain/service/datablock.go:256-284 | A store and an accepted deletion that drops the row and answers an error. |
| IndexAgreement.WriteAgreesExactly | p2p/chain/service/datablock.go:306-413 | Index and rows that agree still agree after an accepted write if and only if it is a later slice; or a first slice that does not shrink its block, with valid keys; or one that does, with no slice stored beyond the old size and keys valid exactly when its size is not 0. |
| IndexAgreement.WriteKeepsTrackedExactly | p2p/chain/service/datablock.go:306-413 | From a store where besides every slice is counted by its first one, it stays so if and only if a later slice is counted, or a first slice counts itself and has valid keys, or counts nothing, has an invalid key and erases a stored one. |
| IndexAgreement.DropKeepsTracked | p2p/chain/service/datablock.go:256-284 | Dropping a block of such a store keeps the agreement and cannot fail. |
| IndexAgreement.DropAgreesExactly | p2p/chain/service/datablock.go:263-284 | Dropping a block keeps the agreement if and only if its first slice counts every stored slice of it. |
| IndexAgreement.UncountedLeavesOrphan | p2p/chain/service/datablock.go:256-313 | A stored and indexed first slice of size 0, whose deletion answers Ok and leaves its entry without a row. |
| IndexAgreement.UncountedThenShrink | p2p/chain/service/datablock.go:310-331 | Three stores, all answered Ok, after which a row is cut off and its entry stays: a block of size 2, its slice 3, a shrink to size 1. |
| StoreRuns.IndexAgreesOverRuns | p2p/chain/service/datablock.go:271-490 | Over every run of stores by either path and of sweeps, with writes that fit, an entry exists for a slice, with the row's type, source and timestamp, exactly when the row exists. |
| StoreRuns.SweepAgreesExactly | p2p/chain/service/datablock.go:449-490 | A sweep keeps the agreement if and only if every stored slice of the expired blocks is counted by its first one. |
| StoreRuns.StepAgreesExactly | p2p/chain/service/datablock.go:190-490 | For any one operation of either path or the sweep, on tables that agree, the exact condition under which they agree after it. |
| StoreRuns.AgreesThroughoutExactly | p2p/chain/service/datablock.go:190-490 | Over every run of blocks with fixed type and business number, index and rows agree all the way if and only if every step meets its condition. |
| StoreRuns.ReadsLastWritten | p2p/chain/service/datablock.go:422-447 | After any run, reading a stored slice gives the payload last accepted for it, from row or file, and a row without payload has its file. |
| StoreRuns.LossesAreExplained | p2p/chain/service/datablock.go:219-490 | Over every run of stores by either path and of sweeps, a row that was there and is gone or changed was changed by a store that its owner, or the owner of its block's first slice, authorised, by a block from the network in such an owner's name, or by a sweep after its block had expired. |
| StoreRuns.LastWriterWins | p2p/chain/service/datablock.go:219-306 | Stores of versions of one slice by one owner end with the newest, in any order and with repeats. |
| StoreRuns.OrderDoesNotMatter | p2p/chain/service/datablock.go:219-306 | Two deliveries of the same versions end with the same row and payload. |
| Expiry.ExpiryExact | p2p/chain/service/datablock.go:449-490 | The sweep, in whatever order rows are listed, answers Ok if and only if the index takes every expired block's orders, and then removes exactly the expired blocks from all tables; from rows, keys and files it removes exactly these if and only if no first slice is listed behind a refused one. |
| Expiry.SweepExactly | p2p/chain/service/datablock.go:457-488 | The four tables after a sweep, wherever it stops: rows, keys and files of the blocks reached are gone, the refused one's among them, and the index has lost the entries of those before it. |
| Expiry.ClearedMeans | p2p/chain/service/datablock.go:457-488 | These tables slice by slice, key by key and entry by entry. |
| Expiry.RefusedStopsSweep | p2p/chain/service/datablock.go:472-485 | A store of indexed types whose sweep answers an error and leaves an expired block behind. |
| Expiry.DeleteExact | p2p/chain/service/datablock.go:256-287 | An accepted empty payload for slice 1 removes exactly its block's rows, keys and files. |
| Expiry.OtherFilesUntouched | p2p/chain/service/datablock.go:457-466 | No file of another block changes, since content names never meet. |
| StdConsensus.RandomSlice | consensus/default.go:45-61 | The pick has the wanted length and keeps distinct ids distinct, whatever the shuffle. |
| StdConsensus.NearestConsensusPeer | consensus/default.go:67-86 | The peers chosen come from the nearest ones, no more than configured. |
| StdConsensus.ChosenDistinct | consensus/default.go:67-86 | Distinct nearest peers give a duplicate-free choice. |
| StdConsensus.StdConsensus.ReceiveConsensus | consensus/std/default.go:43-118 | Cache, tables, answer and messages of the first handler, for any choice of peers. |
| StdConsensus.StdConsensus.ReceiveCommited | consensus/std/default.go:123-158 | Tables, answer and reply of the second handler. |
| StdConsensus.StdConsensus.CountReplies | consensus/std/default.go:227-241 | The loop counts one plus the listed peers whose reply is cached, and collects their keys. |
| StdConsensus.StdConsensus.ReceiveReply | consensus/std/default.go:164-257 | Cache, answer, commit and notices of the third handler. |
| StdConsensus.StdConsensus.Finish | consensus/std/default.go:259-272 | The final store and the notice to the client. |
| ConsensusRuns.RepliersAre | consensus/std/default.go:227-241 | The repliers counted are exactly the listed peers with a cached reply, without duplicates when the list has none. |
| ConsensusRuns.InvOverRuns | consensus/std/default.go:43-272 | Messages, caches and events stay sound over every run. |
| ConsensusRuns.CommitBacked | consensus/std/default.go:243-253 | A commit is backed by a quorum of stores at the moment it happens. |
| ConsensusRuns.CommitsAreBacked | consensus/std/default.go:142-253 | Over every run, each final commit is backed by at least StdMinPeerNum distinct listed peers other than the primary, each of which stored that slice. |
| SingleProposal.SingleOverRuns | consensus/std/default.go:86-253 | With one proposal per slice, the invariant of the next four rows holds in every reachable system. |
| SingleProposal.PendingUntilQuorum | consensus/std/default.go:203-253 | A slice is pending exactly while fewer than StdMinPeerNum listed peers were heard; then the cached replies are those heard; afterwards none is left and it was committed exactly once, as proposed. |
| SingleProposal.CommitsExactlyAtQuorum | consensus/std/default.go:227-253 | The primary commits exactly at the delivery that completes the quorum, and at no other step. |
| SingleProposal.ReplyNeedsBlock | consensus/std/default.go:192-218 | A cache holds a reply only while it holds the block of the same slice. |
| SingleProposal.CommitsAreBackedByVersion | consensus/std/default.go:142-253 | Each commit is backed by peers that stored that very version. |
| ReplicaStores.RequestOutcomes | consensus/std/default.go:43-118 | Which requests are refused, unchanged; which are cached and sent to the chosen peers but the primary, changed in primary and peer list alone; and that the success of any other means its slice can be read on this node. |
| ReplicaStores.ReplyMeansHeld | consensus/std/default.go:123-158 | A peer that replies can read the slice from its own tables, payload and all; the reply goes to the primary and names slice, sender, type and payload hash. |
| ReplicaStores.ReplyMeansDeleted | consensus/std/default.go:142-155 | A reply to the deletion of a stored block means that no slice of it is left on the peer. |
| ReplicaStores.UncalledReplyChangesNothing | consensus/std/default.go:170-199 | A reply by or to the wrong peer is refused, one for a slice that is not pending is ignored, and neither changes anything. |
| ReplicaStores.ContradictionRefusedExactly | consensus/std/default.go:204-218 | A reply is refused for its payload hash if and only if it contradicts the cached one of the same peer, and then changes nothing. |
| ReplicaStores.NoticeMeansHeld | consensus/std/default.go:243-272 | A commit stores the cached block; if the client is told, the primary can read the committed slice; without a commit the tables stay and nobody is told. |
| ReplicaStores.StoreEventIsHeld | consensus/std/default.go:142-155 | In a system, a step that records a store on a peer leaves the slice readable there. |
| ReplicaStores.NoticeIsHeld | consensus/std/default.go:243-272 | In a system, a step that commits and tells the client leaves the slice readable on the primary. |
| ReplicaStores.EventsWereHeld | consensus/std/default.go:123-158 | Over every run, what a peer is recorded to have stored could be read on it at some time. |
| ReplicaStores.CommitsWereHeld | consensus/std/default.go:86-253 | With one proposal per slice, every commit is backed by StdMinPeerNum distinct listed peers whose own tables held the committed version, payload and all. |
| ReplicaStores.HeldUntilReplaced | consensus/std/default.go:43-272 | Over every run with any delivery order, loss and repetition, a slice that a node holds stays as it is until a step on that node replaces it with the authority of its owner, or of the owner of its block's first slice. |
| ConsensusLimits.DeleteNoticeExactly | consensus/std/default.go:259-272 | The notice says "deleted" if and only if a chat block has no payload or one large enough to be moved to a file. |
| ConsensusLimits.LargeChatReportedDeleted | consensus/std/default.go:267-269 | A created chat message is reported as deleted. |
| ConsensusLimits.StaleReplyCommits | consensus/std/default.go:203-253 | A run in which a late reply commits a second version that no peer stored. |
| StaleReplies.StaleRepliesCommit | consensus/std/default.go:203-253 | From every reachable system in which a quorum of listed peers has answered some version of a slice, heard or not, and at least one would not be turned away for another payload hash, proposing a version nobody holds extends to a run that commits it while nobody holds it. |
| StaleReplies.OnlyReproposalUnbacks | consensus/std/default.go:86-253 | A commit with too few holders of its version means that some step of the run proposed a slice again. |
| MessageSlice.SliceCountIsCeiling | webrtc/message_slice.go:22-27 | The slice count is the least number of slices that hold the message. |
| MessageSlice.FrameLayout | webrtc/message_slice.go:28-41 | A frame byte by byte: id, slice count and index in bytes 0-3, 4-7 and 8-11, most significant byte first and cut to 32 bits, then the 16384 bytes of the message from 16384 * i on, or those left. |
| MessageSlice.WriteU32 | webrtc/message_slice.go:31-34 | Four bytes, most significant first, that read back as the number. |
| MessageSlice.MessageSlice.Slice | webrtc/message_slice.go:21-46 | The map from index to frame, for every message: header, whose fields keep the low 32 bits, and chunk of every slice. |
| MessageSlice.MessageSlice.EncodeSlice | webrtc/message_slice.go:31-42 | One frame. |
| MessageSlice.MessageSlice.Send | webrtc/datachannel.go:111-127 | Exactly the frames of the message are sent, each once, in some order. |
| MessageSlice.MessageSlice.Merge | webrtc/message_slice.go:48-89 | The receiver's buffer and the delivery after any data, even data too short for a header, which are sliced out of range. |
| MessageSlice.ShortDataExactly | webrtc/message_slice.go:49-59 | Exactly data shorter than 12 bytes are sliced out of range, and a new id among them has already emptied the buffer. |
| MessageSlice.PayloadsAreMessage | webrtc/message_slice.go:35-42 | The chunks of all frames in index order are the message. |
| MessageSlice.OneSlice | webrtc/message_slice.go:67-86 | One more slice of a message either grows the buffer silently, or completes it. |
| MessageSlice.SilentWhileMissing | webrtc/message_slice.go:48-89 | Nothing is delivered while a slice is missing, in any order and with repeats. |
| MessageSlice.Reassembly | webrtc/message_slice.go:48-89 | The arrival of the last missing slice delivers exactly the original bytes and leaves an empty buffer. |
| MessageSlice.SentIsReceived | webrtc/datachannel.go:111-127 | Whatever order a send takes, the receiver delivers the message once, at the end. |
| MessageSlice.OversizeNeverArrives | webrtc/message_slice.go:21-89 | A message of 2^32 slices or more is never delivered, in any order and with any repeats. |
| MessageSlice.ArrivesExactly | webrtc/datachannel.go:111-127 | Whatever order a send takes, the message arrives if and only if it is not empty and has fewer than 2^32 slices. |
| MessageSlice.NeverMixed | webrtc/message_slice.go:48-89 | A delivery at a buffer holding slices of one of the messages sent is one of these messages in full. |
| MessageSlice.NeverMixedOverRuns | webrtc/message_slice.go:48-89 | Over any interleaving of slices of messages with distinct ids, every delivery is one of these messages in full. |
| MessageSlice.ZeroHeaderNeverDelivers | webrtc/message_slice.go:49-61 | A slice whose three fields are read as zeros delivers nothing. |
| MessageSlice.WrittenNeverDelivers | webrtc/message_slice.go:28-89 | With variables that the decoder refuses, the receiver delivers nothing whatever it is fed, the bare chunks of the written sender among it, and slices out of range exactly on data shorter than a header. |
| Sfu.Sfu.constructor | webrtc/sfu.go:41-48 | A new room is empty. |
| Sfu.Sfu.Join | webrtc/sfu.go:54-81 | State and error of a join, for every outcome of the tracks, and the panic of one without a room. |
| Sfu.Sfu.Leave | webrtc/sfu.go:154-173 | The peer disappears from members, subscribers, publishers and every list; a stranger's leave changes nothing. |
| Sfu.Sfu.Publish | webrtc/sfu.go:180-209 | The new publisher's list is all subscribers but itself. |
| Sfu.Sfu.Subscribe | webrtc/sfu.go:271-325 | An error if and only if a track of a publisher fails; then some publishers may list the newcomer, otherwise all do. |
| Sfu.Sfu.EnterLists | webrtc/sfu.go:281-308 | The loop over the publishers, in any order, up to the first track that cannot be created. |
| SfuMesh.JoinKeeps | webrtc/sfu.go:54-81 | A fresh join keeps the mesh whatever tracks fail, and keeps it whole when none does. |
| SfuMesh.JoinByRole | webrtc/sfu.go:54-81 | What a fresh join changes for each role: who becomes publisher and subscriber, with which lists, and that its error is a failing track of a publisher or a missing room. |
| SfuMesh.LeaveKeeps | webrtc/sfu.go:154-173 | So does a leave. |
| SfuMesh.JoinThenLeave | webrtc/sfu.go:54-173 | A fresh join and its leave restore the room, even when tracks failed. |
| SfuMesh.MeshOverRuns | webrtc/sfu.go:54-325 | Over every run subscribers and publishers are the members with these roles, and each publisher's list is within all subscribers but itself; without a track failure the state is a function of the plain set of members. |
| SfuMesh.RolesOverRuns | webrtc/sfu.go:54-325 | Over every run without a track failure, subscribers, publishers and their lists by the roles of the members. |
| SfuMesh.HistoryLeavesNoTrace | webrtc/sfu.go:54-325 | Two runs without track failures that end with the same members end in the same state. |
| SfuPool.SfuPool.Join | webrtc/sfu.go:350-371 | The room is made if it is missing, and joined; the other rooms stay. |
| SfuPool.SfuPool.Get | webrtc/sfu.go:373-380 | The room that bears the id asked for; there is one if and only if somebody is joined to it. |
| SfuPool.SfuPool.Leave | webrtc/sfu.go:386-415 | The connection leaves its room, which goes with its last member. |
| SfuPool.SfuPool.Destroy | webrtc/sfu.go:417-431 | The room goes with all its members. |
| SfuPool.PoolOverRuns | webrtc/sfu.go:350-431 | Over every run of joins, leaves and destroys, the pool records exactly who is joined where, and every room is a mesh of at least one member. |
| SfuPool.JoinAnswers | webrtc/sfu.go:350-371 | What a join answers, by who is joined where: a missing router or room id, already joined, or at worst a failing track. |
| SfuPool.LeaveAnswers | webrtc/sfu.go:386-415 | What a leave answers: none if and only if the connection is joined to its room. |
| SfuPool.RoomExactlyWhenJoined | webrtc/sfu.go:350-431 | The pool holds a room if and only if some connection is joined to it. |
| SfuPool.PoolJoinThenLeave | webrtc/sfu.go:350-415 | A join of a connection new to its room, then its leave, restore the pool. |
| PeerConnectionPool.PeerConnectionPool.GetOne | webrtc/peer_connection_pool.go:70-81 | In a valid pool the scan is the two-key lookup. |
| PeerConnectionPool.PeerConnectionPool.Put | webrtc/peer_connection_pool.go:83-98 | The table after a put. |
| PeerConnectionPool.PeerConnectionPool.Remove | webrtc/peer_connection_pool.go:123-150 | The table after a removal and exactly the connections taken out; a valid pool stays valid. |
| PeerConnectionPool.PeerConnectionPool.Close | webrtc/peer_connection_pool.go:153-166 | True if and only if there was a connection to remove; a valid pool stays valid. |
| PeerConnectionPool.PeerConnectionPool.Create | webrtc/peer_connection_pool.go:100-121 | A new connection replaces the old one; when its set-up fails the ids are left empty, whatever was there; an empty client id in use takes all of the peer's connections down. |
| PeerConnectionPool.PeerConnectionPool.CreateIfNotExist | webrtc/peer_connection_pool.go:232-255 | The stored connection, or a new one that stays stored even when its set-up fails. |
| PeerConnectionPool.PeerConnectionPool.Rekey | webrtc/peer_connection_pool.go:295-302 | Re-keying in place keeps every connection under its own ids. |
| PeerConnectionPool.PeerConnectionPool.OnWebrtcSignal | webrtc/peer_connection_pool.go:270-351 | Which connection serves a signal, when it fails, and every lookup afterwards. |
| PeerConnectionPool.PeerConnectionPool.Clear | webrtc/peer_connection_pool.go:198-230 | Exactly the unconnected overtime connections go, and with them the peers left without any. |
| PeerConnectionPool.FindWithout | webrtc/peer_connection_pool.go:123-150 | A removal takes out exactly what its two ids select and leaves no empty inner map. |
| PeerConnectionPool.FindWith | webrtc/peer_connection_pool.go:83-98 | A put changes exactly one lookup. |
| PeerConnectionPool.FindRekeyed | webrtc/peer_connection_pool.go:295-302 | The waiting connection replaces any under its new id, and no other lookup changes. |
| PeerConnectionPool.FindDetermines | webrtc/peer_connection_pool.go:13-19 | Tables without empty inner maps that agree on every lookup are equal. |
| SipMessage.ToString | webrtc/sip/softphone/sipmessage.go:54-65 | The printed text, for some order of the headers, and that it reads back as the message. |
| SipMessage.FromString | webrtc/sip/softphone/sipmessage.go:67-81 | The message read; no result, which stands for a panic, if and only if a header line has no ": ". |
| SipMessage.Response | webrtc/sip/softphone/sipmessage.go:84-99 | The text of a response, for some order of the extra headers, and what it reads back as. |
| SipMessage.HeaderLineExactly | webrtc/sip/softphone/sipmessage.go:75-78 | A header line gives key and value back if and only if neither holds ": ". |
| SipMessage.HeaderValueIsCut | webrtc/sip/softphone/sipmessage.go:75-78 | A value is read up to the first ": " in it. |
| SipMessage.HeadHasNoBlankLine | webrtc/sip/softphone/sipmessage.go:68-69 | The first blank line of a printed message is the one before the body. |
| SipMessage.AssembledReadsBack | webrtc/sip/softphone/sipmessage.go:54-81 | Any header lines without a break are read back, values up to the first ": " in them and later lines winning, with any body. |
| SipMessage.PrintedReadsBack | webrtc/sip/softphone/sipmessage.go:54-81 | A printed message is read back for every header order and every body: the same headers, except that the two added ones replace any of their name. |
| SipMessage.SecondRoundIsSame | webrtc/sip/softphone/sipmessage.go:54-81 | A message as it is read is a fixed point of printing and reading. |
| SipMessage.ResponseReadsBack | webrtc/sip/softphone/sipmessage.go:67-99 | A response is read back with the echoed headers, the caller's over them, and the closing ones over both. |
| SipMessage.ResponseHeaders | webrtc/sip/softphone/sipmessage.go:84-96 | The headers of a response by name: the four echoed ones, the tagged To, Supported, the length, and the caller's. |
| SipMessage.LineWithoutColonPanics | webrtc/sip/softphone/sipmessage.go:75-78 | The header loop indexes out of range if and only if a line has no ": ". |
| SipMessage.ReadPanicsExactly | webrtc/sip/softphone/sipmessage.go:67-81 | The parser panics on a text if and only if a line of its head behind the first has no ": ". |
| HttpPipeline.ScanLine | transport/http/server.go:148-173 | Method, path and protocol, or where the data run out or go out of range. |
| HttpPipeline.ScanHeaders | transport/http/server.go:178-201 | The header loop, with the last length declared. |
| HttpPipeline.TakeBody | transport/http/server.go:182-193 | The body is taken if all of it is there. |
| HttpPipeline.ParseReq | transport/http/server.go:141-204 | Outcome and request record of one call, for every buffer and every earlier record. |
| HttpPipeline.HttpCodec.Decode | transport/http/server.go:46-65 | One response per request taken off; the inbound buffer is empty afterwards whatever was left over. |
| HttpPipeline.LeftoverIsSuffix | transport/http/server.go:141-204 | What is left over is the whole buffer or a strictly shorter suffix, so the goto loop ends. |
| HttpPipeline.ParsePrinted | transport/http/server.go:141-204 | A well-formed request in front of any bytes is taken off whole and fills the record. |
| HttpPipeline.ParseOnlyPrinted | transport/http/server.go:141-204 | Whatever is taken off is a well-formed printed request. |
| HttpPipeline.DrainPrinted | transport/http/server.go:50-65 | Requests in front of any bytes are answered one each before the rest is looked at. |
| HttpPipeline.PipelineAnswersAll | transport/http/server.go:46-65 | A buffer of n complete requests gives exactly n responses and leaves nothing. |
| HttpPipeline.AnswersAreRequests | transport/http/server.go:46-65 | For every buffer, the answers are as many as the requests at its front, and the rest starts with none. |
| HttpPipeline.CutRequestUnanswered | transport/http/server.go:46-65 | A read that ends inside a request answers nothing. |
| HttpPipeline.QueryPanics | transport/http/server.go:148-158 | The parser slices out of range if and only if the data start with a verb and a complete target that has a '?'. |
| HttpPipeline.QueryRecord | transport/http/server.go:148-157 | What the request record keeps of such a request. |
| HttpPipeline.MalformedExactly | transport/http/server.go:148-176 | The error of a malformed request: if and only if the record has never seen a request line and the data start with none. |
| HttpPipeline.DrainEnds | transport/http/server.go:50-65 | How a read ends: with a panic if and only if what is left starts with a query, with that error if and only if nothing was answered before, and otherwise in order. |
| HttpResponses.ResponseLayout | transport/http/server.go:112-132 | A response byte by byte: version, status, server, date, length, the caller's lines, a blank line, the body. |
| HttpResponses.ResponseIsReceived | transport/http/server.go:112-132 | A response in front of any bytes is received whole by its declared length, with its status and body. |
| HttpResponses.AnswersAreReceived | transport/http/server.go:46-65 | Answers back to back are received as exactly that many responses. |
| HttpResponses.RequestsAreAnswered | transport/http/server.go:46-132 | For every buffer: a panic, an error, or as many received responses with the given body as requests stand at its front. |
| HttpPipeline.LengthReadsBack | transport/http/server.go:194-199 | A printed Content-Length is read as the number, over any earlier one. |
| HttpPipeline.LengthExactly | transport/http/server.go:194-199 | A length line sets the length if blanks, a sign and decimal digits that fit 64 bits follow the colon; digits that do not fit leave it. |
| HttpPipeline.NoNumberNoLength | transport/http/server.go:194-199 | And anything but a number leaves it as well. |
| HttpPipeline.AnyBodyIsWellFormed | transport/http/server.go:185-191 | Any body can be sent: with its length declared the request is well-formed. |

## Left out

Data and storage

- The block store's `Get`, `Upsert` and `Delete` are map operations on whole rows; row numbers and the columns that no
  branch looks at are not modelled, nor is the ORM's habit of ignoring zero-valued condition fields.
- Storage calls succeed: the branches for an upsert that affects no row, or a file write that fails, are not modelled.
- Signature checks are an oracle, the content hash is taken as injective (names stand for their hashes), base64 and
  JSON as identities; a file written with nothing is an empty file.
- Slice numbers and sizes are unbounded; the wrap-around of a 64-bit loop counter is not modelled.
- DataBlockService.DataBlockService.PutPTs: is a put into the local index; the key it is published under is modelled, the network is not.
- DataBlockService.DataBlockService.UpsertSlice: stands for the part that the two write paths repeat word for word.
- DataBlockService.DataBlockService.StoreValue: returns the caller's block with its payload emptied, where the source changes it through the pointer.
- StoreRuns.IndexAgreesOverRuns: is about values of one block, which is what `PutLocalDBs` sends; lists of blocks are covered one write at a time.
- DataBlockService.DataBlockService.XormPut: covers the block namespaces; the branches for peer clients and endpoints would add the same shape without the cascades.

Replication

- Handlers are atomic and background sends are messages that may arrive at any time; the cache has no expiry; a type
  assertion that would panic is a failure.
- Extracting the block and its keys from a message, and the transaction amount, are not modelled; nor is the peer
  choice by random endpoints, which nothing calls.
- The "pbft" and "raft" variants and multi-hop relaying are not part of this model.

Channels and rooms

- MessageSlice.MessageSlice.Merge: takes the capacity of its data to be their length, so that short data are sliced out of range.
- Whether the channel is open or closed, and errors of the channel itself, are not modelled.
- Forwarding of media (`onTrack`, `publishTrack`) and the negotiation of connections are callbacks of a library; the
  tracks of a publisher and their failures are parameters of a join.
- PeerConnectionPool.PeerConnectionPool.Close: does not model what closing does to a connection.
- PeerConnectionPool.PeerConnectionPool.OnWebrtcSignal: does not model what the connection does with the signal; the success of a set-up is a parameter.
- PeerConnectionPool.PeerConnectionPool.Clear: takes the time and each connection's start as numbers; the source reads the nanoseconds within the current second, and starts every connection at 0.

Text protocols

- The methods that set a single SIP header (`addCseq`, `addCallID` and the like) are not modelled: each assigns one
  map entry, with branches and authorisation values from code outside this model.
- SipMessage.ToString: counts characters as bytes.
- HttpPipeline.HttpCodec.Decode: takes one date for all responses of a read.
- Trimming a declared length removes the six ASCII white-space characters, not the Unicode ones.
- HttpPipeline.ScanLine: is three methods, one for each of the source's nested loops.
