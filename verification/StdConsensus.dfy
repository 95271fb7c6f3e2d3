/** The "std" replication protocol on one node: a primary proposes a slice to chosen peers, each peer stores it and
    replies, and the primary commits when enough of the listed peers have replied. */
module StdConsensus {
  import opened Text
  import opened CacheKeys
  import opened BlockModel
  import opened BlockStore
  import DataBlockService

  const CONSENSUS := "CONSENSUS"
  const CONSENSUS_REPLY := "CONSENSUS_REPLY"

  datatype ConsensusLog = ConsensusLog(id: LogId, blockType: string, payloadHash: string)

  datatype CacheEntry = BlockEntry(block: DataBlock) | LogEntry(log: ConsensusLog)

  type Cache = map<string, CacheEntry>

  datatype Message = Commited(to: string, block: DataBlock) | Reply(to: string, log: ConsensusLog)

  datatype Response = Nothing | Success(messageType: string) | ErrorMessage(messageType: string, error: string) | Failure(error: string)

  datatype Config = Config(minPeers: int, peerNum: nat)

  /** What a handler leaves behind: the two stores of the node, its answer, what it sends, and a final commit. */
  datatype Handled = Handled(
    cache: Cache,
    store: Store,
    response: Response,
    sends: seq<Message>,
    committed: seq<DataBlock>)

  /** `CreateConsensusLog`. */
  function LogOf(me: string, db: DataBlock): ConsensusLog {
    ConsensusLog(LogId(db.primaryPeerId, db.blockId, db.sliceNumber, db.primarySequenceId, me, CONSENSUS_REPLY),
                 db.blockType, db.payloadHash)
  }

  function Peers(db: DataBlock): seq<string> { Split(db.peerIds, ",") }

  // ----- choosing the peers -----

  predicate Distinct(ids: seq<string>) { forall i, j | 0 <= i < j < |ids| :: ids[i] != ids[j] }

  /** What `NearestConsensusPeer` may return for the ids the routing table finds nearest. */
  predicate ChosenFrom(cfg: Config, nearest: seq<string>, chosen: seq<string>) {
    if cfg.peerNum == 0 then chosen == []
    else if |nearest| > cfg.peerNum then |chosen| == cfg.peerNum && multiset(chosen) <= multiset(nearest)
    else chosen == nearest
  }

  lemma DistinctCounts(ids: seq<string>)
    ensures Distinct(ids) <==> forall x | x in ids :: multiset(ids)[x] == 1
  {
    if ids != [] {
      var n := |ids| - 1;
      assert ids == ids[..n] + [ids[n]];
      DistinctCounts(ids[..n]);
      assert Distinct(ids) <==> Distinct(ids[..n]) && ids[n] !in ids[..n];
      assert multiset(ids) == multiset(ids[..n]) + multiset{ids[n]};
      if forall x | x in ids :: multiset(ids)[x] == 1 {
        assert ids[n] in ids;
        forall x | x in ids[..n] ensures multiset(ids[..n])[x] == 1 {
          assert x in ids && multiset(ids)[x] == 1;
        }
      }
    }
  }

  /** Peers chosen from a list without repeats are without repeats, from that list, and as many as configured or as there
      are. */
  lemma ChosenDistinct(cfg: Config, nearest: seq<string>, chosen: seq<string>)
    requires Distinct(nearest) && ChosenFrom(cfg, nearest, chosen)
    ensures Distinct(chosen) && forall x | x in chosen :: x in nearest
    ensures |chosen| == if cfg.peerNum < |nearest| then cfg.peerNum else |nearest|
  {
    if cfg.peerNum != 0 && |nearest| > cfg.peerNum {
      DistinctCounts(nearest);
      forall x | x in chosen ensures multiset(chosen)[x] == 1 && x in nearest {
        assert x in multiset(chosen) && x in multiset(nearest);
      }
      DistinctCounts(chosen);
    }
  }

  /** `randomSlice`: shuffle a copy, keep the first `count`. The random draws are arbitrary. */
  method RandomSlice(origin: seq<string>, count: nat) returns (result: seq<string>)
    ensures multiset(result) <= multiset(origin)
    ensures |result| == if count < |origin| then count else |origin|
  {
    var tmp := new string[|origin|](i requires 0 <= i < |origin| => origin[i]);
    assert tmp[..] == origin;
    var i := |origin| - 1;
    while i > 0
      invariant -1 <= i < |origin|
      invariant multiset(tmp[..]) == multiset(origin)
    {
      var j: int :| 0 <= j <= i;
      ghost var before := tmp[..];
      tmp[i], tmp[j] := tmp[j], tmp[i];
      assert tmp[..] == before[i := before[j]][j := before[i]];
      i := i - 1;
    }
    result := [];
    var index := 0;
    while index < tmp.Length && index != count
      invariant 0 <= index <= tmp.Length && index <= count
      invariant result == tmp[..index]
    {
      result := result + [tmp[index]];
      index := index + 1;
    }
    assert tmp[..] == tmp[..index] + tmp[index..];
  }

  /** `NearestConsensusPeer` on the ids the routing table finds nearest. */
  method NearestConsensusPeer(cfg: Config, nearest: seq<string>) returns (chosen: seq<string>)
    ensures ChosenFrom(cfg, nearest, chosen)
    ensures |chosen| == if cfg.peerNum < |nearest| then cfg.peerNum else |nearest|
  {
    if cfg.peerNum == 0 {
      return [];
    }
    chosen := [];
    for i := 0 to |nearest|
      invariant chosen == nearest[..i]
    {
      chosen := chosen + [nearest[i]];
    }
    assert chosen == nearest;
    if |nearest| > cfg.peerNum {
      chosen := RandomSlice(chosen, cfg.peerNum);
    }
  }

  // ----- the handlers as functions -----

  /** The COMMITED messages of a proposal: one for every chosen peer but the primary itself. */
  function Notices(me: string, db: DataBlock, chosen: seq<string>): seq<Message> {
    if chosen == [] then []
    else
      var front := Notices(me, db, chosen[..|chosen| - 1]);
      var to := chosen[|chosen| - 1];
      if to == me then front else front + [Commited(to, db)]
  }

  /** The block as the primary proposes it. */
  function Proposal(me: string, db: DataBlock, chosen: seq<string>): DataBlock {
    db.(primaryPeerId := me, peerIds := Join(chosen, ","))
  }

  /** Whether the request is answered before any peers are asked. */
  function Refusal(me: string, registered: bool, db: DataBlock): Response {
    if db.transportPayload == "" && db.expireDate == 0 then Failure("Invalid expireDate")
    else if !registered then Failure("NoMyselfPeer")
    else if db.primaryPeerId != "" && db.primaryPeerId != me then Failure("MustPrimaryPeer")
    else Nothing
  }

  predicate Replicates(cfg: Config, db: DataBlock, chosen: seq<string>) {
    db.blockType != TYPE_CHAT_ATTACH && cfg.minPeers > 0 && chosen != []
  }

  /** `ReceiveConsensus` with the peers it chose. */
  function HandleConsensus(cfg: Config, registered: bool, cache: Cache, store: Store, env: Env, db: DataBlock,
                           chosen: seq<string>): Handled
  {
    var me := env.myself;
    if Refusal(me, registered, db) != Nothing then Handled(cache, store, Refusal(me, registered, db), [], [])
    else if Replicates(cfg, db, chosen) then
      var p := Proposal(me, db, chosen);
      Handled(cache[DataKey(db.blockId, db.sliceNumber) := BlockEntry(p)], store, Success(CONSENSUS),
              Notices(me, p, chosen), [])
    else
      var o := StoreValue(store, env, db.(primaryPeerId := me, status := STATUS_EFFECTIVE));
      Handled(cache, o.store,
              if o.result.Ok? then Success(CONSENSUS_REPLY) else ErrorMessage(CONSENSUS_REPLY, o.result.error), [], [])
  }

  /** `ReceiveCommited`. */
  function HandleCommited(registered: bool, cache: Cache, store: Store, env: Env, db: DataBlock): Handled {
    if !registered then Handled(cache, store, Failure("NoMyselfPeer"), [], [])
    else
      var o := StoreValue(store, env, db.(status := STATUS_EFFECTIVE));
      if o.result.Err? then Handled(cache, o.store, Failure(o.result.error), [], [])
      else Handled(cache, o.store, Nothing, [Reply(db.primaryPeerId, LogOf(env.myself, db))], [])
  }

  /** The listed peers whose reply to the same request is in the cache, in list order. */
  function Repliers(cache: Cache, request: LogId, ids: seq<string>): seq<string> {
    if ids == [] then []
    else
      var front := Repliers(cache, request, ids[..|ids| - 1]);
      var id := ids[|ids| - 1];
      if LogKey(request.(peerId := id, status := CONSENSUS_REPLY)) in cache then front + [id] else front
  }

  function ReplyKeys(request: LogId, ids: seq<string>): set<string> {
    set i | 0 <= i < |ids| :: LogKey(request.(peerId := ids[i], status := CONSENSUS_REPLY))
  }

  /** An entry of the wrong kind under a key: the source's type assertion panics there. */
  predicate Mistyped(cache: Cache, keys: set<string>) { exists k | k in keys :: k in cache && cache[k].BlockEntry? }

  const PANIC := Failure("panic: interface conversion")

  /** `finalCommit`: the client is told unless the store refuses; an empty peer id in the log stands for a deletion. */
  function FinalCommit(cache: Cache, store: Store, env: Env, db: DataBlock, request: LogId, blockType: string): Handled {
    var o := StoreValue(store, env, db);
    var left := if Judge(store, env, db).Write? then AfterSpill(db) else db;
    var peerId := if db.blockType == TYPE_P2P_CHAT && left.transportPayload == "" then "" else env.myself;
    var log := ConsensusLog(request.(peerId := peerId, status := CONSENSUS_REPLY), blockType, "");
    Handled(cache, o.store, Nothing, if o.result.Ok? then [Reply(db.peerId, log)] else [], [db])
  }

  /** What a reply leads to before the block store is touched. */
  datatype Decision = Answer(cache: Cache, response: Response) | CommitNow(cache: Cache, block: DataBlock)

  function DecideReply(cfg: Config, registered: bool, cache: Cache, me: string, log: ConsensusLog): Decision {
    var id := log.id;
    var dbKey := DataKey(id.blockId, id.sliceNumber);
    var logKey := LogKey(id);
    if !registered then Answer(cache, Failure("NoMyselfPeer"))
    else if id.peerId == id.primaryPeerId then Answer(cache, Failure("peerId == primaryPeerId"))
    else if id.primaryPeerId != me then Answer(cache, Failure("primaryPeerId != myPeerId"))
    else if dbKey !in cache then Answer(cache, Nothing)
    else if cache[dbKey].LogEntry? then Answer(cache, PANIC)
    else if logKey in cache && cache[logKey].BlockEntry? then Answer(cache, PANIC)
    else if logKey in cache && log.payloadHash != "" && log.payloadHash != cache[logKey].log.payloadHash then
      Answer(cache, Failure("ErrorPayloadHash"))
    else
      var cache1 := if logKey in cache then cache else cache[logKey := LogEntry(log)];
      var block := cache[dbKey].block;
      var replied := Repliers(cache1, id, Peers(block));
      if Mistyped(cache1, ReplyKeys(id, Peers(block))) then Answer(cache1, PANIC)
      else if 1 + |replied| >= cfg.minPeers + 1 then
        CommitNow(cache1 - {dbKey} - ReplyKeys(id, replied), block.(status := STATUS_EFFECTIVE))
      else Answer(cache1, Nothing)
  }

  /** `ReceiveReply`. */
  function HandleReply(cfg: Config, registered: bool, cache: Cache, store: Store, env: Env, log: ConsensusLog): Handled {
    match DecideReply(cfg, registered, cache, env.myself, log)
    case Answer(cache1, response) => Handled(cache1, store, response, [], [])
    case CommitNow(cache1, block) => FinalCommit(cache1, store, env, block, log.id, log.blockType)
  }

  // ----- the handlers as the program runs them -----

  class StdConsensus {
    const cfg: Config
    const registered: bool
    const service: DataBlockService.DataBlockService
    var cache: Cache

    constructor (cfg: Config, registered: bool, service: DataBlockService.DataBlockService)
      ensures this.cfg == cfg && this.registered == registered && this.service == service && cache == map[]
    {
      this.cfg, this.registered, this.service := cfg, registered, service;
      cache := map[];
    }

    method ReceiveConsensus(db: DataBlock, nearest: seq<string>)
      returns (response: Response, sends: seq<Message>, ghost chosen: seq<string>)
      requires service.Valid()
      modifies this, service
      ensures service.Valid()
      ensures ChosenFrom(cfg, nearest, chosen)
      ensures Handled(cache, service.View(), response, sends, []) ==
              HandleConsensus(cfg, registered, old(cache), old(service.View()), service.env, db, chosen)
    {
      sends, chosen := [], if cfg.peerNum == 0 then [] else nearest[..if |nearest| > cfg.peerNum then cfg.peerNum else |nearest|];
      ChosenExists(cfg, nearest, chosen);
      var me := service.env.myself;
      if db.transportPayload == "" && db.expireDate == 0 {
        return Failure("Invalid expireDate"), sends, chosen;
      }
      if !registered {
        return Failure("NoMyselfPeer"), sends, chosen;
      }
      var block := db;
      if block.primaryPeerId == "" {
        block := block.(primaryPeerId := me);
      } else if block.primaryPeerId != me {
        return Failure("MustPrimaryPeer"), sends, chosen;
      }
      if block.blockType != TYPE_CHAT_ATTACH {
        var peerIds := [];
        if cfg.minPeers > 0 {
          peerIds := NearestConsensusPeer(cfg, nearest);
          chosen := peerIds;
        }
        if |peerIds| > 0 {
          block := block.(peerIds := Join(peerIds, ","));
          cache := cache[DataKey(block.blockId, block.sliceNumber) := BlockEntry(block)];
          for i := 0 to |peerIds|
            invariant sends == Notices(me, block, peerIds[..i])
          {
            assert peerIds[..i + 1][..i] == peerIds[..i];
            if me != peerIds[i] {
              sends := sends + [Commited(peerIds[i], block)];
            }
          }
          assert peerIds[..|peerIds|] == peerIds;
          return Success(CONSENSUS), sends, chosen;
        }
      }
      block := block.(status := STATUS_EFFECTIVE);
      var r, _ := service.StoreValue(block);
      if r.Err? {
        response := ErrorMessage(CONSENSUS_REPLY, r.error);
      } else {
        response := Success(CONSENSUS_REPLY);
      }
    }

    method ReceiveCommited(db: DataBlock) returns (response: Response, sends: seq<Message>)
      requires service.Valid()
      modifies service
      ensures service.Valid()
      ensures Handled(cache, service.View(), response, sends, []) ==
              HandleCommited(registered, old(cache), old(service.View()), service.env, db)
    {
      sends := [];
      if !registered {
        return Failure("NoMyselfPeer"), sends;
      }
      var log := LogOf(service.env.myself, db);
      var r, _ := service.StoreValue(db.(status := STATUS_EFFECTIVE));
      if r.Err? {
        return Failure(r.error), sends;
      }
      sends := [Reply(db.primaryPeerId, log)];
      response := Nothing;
    }

    /** The counting loop: it starts at one, for the primary itself, and collects the keys it found. */
    static method CountReplies(cache: Cache, id: LogId, peerIds: seq<string>)
      returns (typed: bool, count: nat, keys: set<string>)
      ensures typed <==> !Mistyped(cache, ReplyKeys(id, peerIds))
      ensures typed ==> count == 1 + |Repliers(cache, id, peerIds)|
      ensures typed ==> keys == ReplyKeys(id, Repliers(cache, id, peerIds))
    {
      typed, count, keys := true, 1, {};
      for i := 0 to |peerIds|
        invariant count == 1 + |Repliers(cache, id, peerIds[..i])|
        invariant keys == ReplyKeys(id, Repliers(cache, id, peerIds[..i]))
        invariant !Mistyped(cache, ReplyKeys(id, peerIds[..i]))
      {
        var key := LogKey(id.(peerId := peerIds[i], status := CONSENSUS_REPLY));
        assert peerIds[..i + 1][..i] == peerIds[..i];
        KeysGrow(id, peerIds[..i], peerIds[i]);
        assert peerIds[..i + 1] == peerIds[..i] + [peerIds[i]];
        if key in cache {
          if cache[key].BlockEntry? {
            assert key in ReplyKeys(id, peerIds) && Mistyped(cache, ReplyKeys(id, peerIds));
            return false, count, keys;
          }
          KeysGrow(id, Repliers(cache, id, peerIds[..i]), peerIds[i]);
          keys := keys + {key};
          count := count + 1;
        }
      }
      assert peerIds[..|peerIds|] == peerIds;
    }

    method ReceiveReply(log: ConsensusLog) returns (response: Response, sends: seq<Message>, committed: seq<DataBlock>)
      requires service.Valid()
      modifies this, service
      ensures service.Valid()
      ensures Handled(cache, service.View(), response, sends, committed) ==
              HandleReply(cfg, registered, old(cache), old(service.View()), service.env, log)
    {
      sends, committed := [], [];
      var id := log.id;
      if !registered {
        return Failure("NoMyselfPeer"), sends, committed;
      }
      if id.peerId == id.primaryPeerId {
        return Failure("peerId == primaryPeerId"), sends, committed;
      }
      if id.primaryPeerId != service.env.myself {
        return Failure("primaryPeerId != myPeerId"), sends, committed;
      }
      var dbKey := DataKey(id.blockId, id.sliceNumber);
      if dbKey !in cache {
        return Nothing, sends, committed;
      }
      if cache[dbKey].LogEntry? {
        return PANIC, sends, committed;
      }
      var block := cache[dbKey].block;
      var peerIds := Split(block.peerIds, ",");
      var logKey := LogKey(id);
      if logKey in cache {
        if cache[logKey].BlockEntry? {
          return PANIC, sends, committed;
        }
        if |log.payloadHash| > 0 && log.payloadHash != cache[logKey].log.payloadHash {
          return Failure("ErrorPayloadHash"), sends, committed;
        }
      } else {
        cache := cache[logKey := LogEntry(log)];
      }
      var typed, count, keys := CountReplies(cache, id, peerIds);
      if !typed {
        return PANIC, sends, committed;
      }
      if count >= cfg.minPeers + 1 {
        cache := cache - {dbKey};
        block := block.(status := STATUS_EFFECTIVE);
        committed := [block];
        sends := Finish(block, ConsensusLog(id.(peerId := id.primaryPeerId, status := CONSENSUS_REPLY), log.blockType, ""));
        cache := cache - keys;
      }
      response := Nothing;
    }

    /** `finalCommit`: store, then tell the client. */
    method Finish(block: DataBlock, log: ConsensusLog) returns (sends: seq<Message>)
      requires service.Valid()
      modifies service
      ensures service.Valid()
      ensures service.View() == StoreValue(old(service.View()), service.env, block).store
      ensures var left := if Judge(old(service.View()), service.env, block).Write? then AfterSpill(block) else block;
              sends == if StoreValue(old(service.View()), service.env, block).result.Err? then []
                       else [Reply(block.peerId,
                                   if block.blockType == TYPE_P2P_CHAT && left.transportPayload == "" then
                                     log.(id := log.id.(peerId := ""))
                                   else log)]
    {
      var r, left := service.StoreValue(block);
      if r.Err? {
        return [];
      }
      var told := log;
      if left.blockType == TYPE_P2P_CHAT && |left.transportPayload| == 0 {
        told := told.(id := told.id.(peerId := ""));
      }
      sends := [Reply(left.peerId, told)];
    }
  }

  lemma ChosenExists(cfg: Config, nearest: seq<string>, chosen: seq<string>)
    requires chosen == if cfg.peerNum == 0 then [] else nearest[..if |nearest| > cfg.peerNum then cfg.peerNum else |nearest|]
    ensures ChosenFrom(cfg, nearest, chosen)
  {
    if cfg.peerNum > 0 {
      var n := |chosen|;
      assert nearest == nearest[..n] + nearest[n..];
    }
  }

  lemma KeysGrow(request: LogId, ids: seq<string>, id: string)
    ensures ReplyKeys(request, ids + [id]) ==
            ReplyKeys(request, ids) + {LogKey(request.(peerId := id, status := CONSENSUS_REPLY))}
  {
    var more := ids + [id];
    assert more[|ids|] == id;
    forall k | k in ReplyKeys(request, ids) ensures k in ReplyKeys(request, more) {
      var i :| 0 <= i < |ids| && k == LogKey(request.(peerId := ids[i], status := CONSENSUS_REPLY));
      assert more[i] == ids[i];
    }
  }
}
