/** Runs of the replication protocol over many nodes. The network is a growing set of sent messages, so a message may
    be delivered late, in any order, many times, or never; each delivery runs one handler atomically. */
module ConsensusRuns {
  import opened Text
  import opened CacheKeys
  import opened BlockModel
  import opened BlockStore
  import opened StdConsensus

  datatype Params = Params(cfg: Config, hasPublicKey: string -> bool, verify: (string, string, string) -> bool)

  datatype NodeState = NodeState(cache: Cache, store: Store)

  /** Peer `peer` ran StoreValue successfully on `block`. */
  datatype StoreEvent = StoreEvent(peer: string, block: DataBlock)

  datatype SliceKey = SliceKey(primary: string, blockId: string, sliceNumber: nat)

  datatype Commit = Commit(primary: string, block: DataBlock)

  /** The nodes and the network, and what happened so far: successful stores on replicas, final commits, the latest
      proposal of every slice, and the replies delivered to their primary. */
  datatype Sys = Sys(
    nodes: map<string, NodeState>,
    net: set<Message>,
    stored: set<StoreEvent>,
    commits: seq<Commit>,
    proposed: map<SliceKey, DataBlock>,
    delivered: set<(SliceKey, string)>)

  datatype Step =
    | Propose(me: string, db: DataBlock, nearest: seq<string>, chosen: seq<string>)
    | DeliverBlock(me: string, db: DataBlock)
    | DeliverReply(me: string, log: ConsensusLog)

  function KeyOf(primary: string, db: DataBlock): SliceKey { SliceKey(primary, db.blockId, db.sliceNumber) }

  function LogSlice(id: LogId): SliceKey { SliceKey(id.primaryPeerId, id.blockId, id.sliceNumber) }

  function Sent(sends: seq<Message>): set<Message> { set m | m in sends }

  /** The text of a peer id: not empty, and without the separators the keys and lists use. */
  predicate GoodPeer(id: string) { id != "" && ',' !in id && ColonFree(id) }

  predicate GoodList(ids: seq<string>) { Distinct(ids) && forall id | id in ids :: GoodPeer(id) }

  function EnvOf(p: Params, me: string): Env
    requires GoodPeer(me)
  {
    Env(me, p.hasPublicKey, p.verify)
  }

  ghost predicate Enabled(p: Params, s: Sys, step: Step) {
    && step.me in s.nodes && GoodPeer(step.me)
    && match step
       case Propose(_, _, nearest, chosen) => GoodList(nearest) && ChosenFrom(p.cfg, nearest, chosen)
       case DeliverBlock(me, db) => Commited(me, db) in s.net
       case DeliverReply(me, log) => Reply(me, log) in s.net
  }

  function ProposeOutcome(p: Params, n: NodeState, step: Step): Handled
    requires step.Propose? && GoodPeer(step.me)
  {
    HandleConsensus(p.cfg, true, n.cache, n.store, EnvOf(p, step.me), step.db, step.chosen)
  }

  predicate Caches(p: Params, step: Step)
    requires step.Propose?
  {
    Refusal(step.me, true, step.db) == Nothing && Replicates(p.cfg, step.db, step.chosen)
  }

  function BlockOutcome(p: Params, n: NodeState, step: Step): Handled
    requires step.DeliverBlock? && GoodPeer(step.me)
  {
    HandleCommited(true, n.cache, n.store, EnvOf(p, step.me), step.db)
  }

  predicate StoresWell(p: Params, n: NodeState, step: Step)
    requires step.DeliverBlock? && GoodPeer(step.me)
  {
    StoreValue(n.store, EnvOf(p, step.me), step.db.(status := STATUS_EFFECTIVE)).result.Ok?
  }

  function ReplyOutcome(p: Params, n: NodeState, step: Step): Handled
    requires step.DeliverReply? && GoodPeer(step.me)
  {
    HandleReply(p.cfg, true, n.cache, n.store, EnvOf(p, step.me), step.log)
  }

  function CommitsOf(me: string, blocks: seq<DataBlock>): seq<Commit> {
    seq(|blocks|, i requires 0 <= i < |blocks| => Commit(me, blocks[i]))
  }

  /** A reply addressed to this primary by another peer. */
  predicate Counts(me: string, log: ConsensusLog) { log.id.primaryPeerId == me && log.id.peerId != me }

  function Exec(p: Params, s: Sys, step: Step): Sys
    requires step.me in s.nodes && GoodPeer(step.me)
  {
    var me, n := step.me, s.nodes[step.me];
    match step
    case Propose(_, db, _, chosen) =>
      var h := ProposeOutcome(p, n, step);
      s.(nodes := s.nodes[me := NodeState(h.cache, h.store)], net := s.net + Sent(h.sends),
         proposed := if Caches(p, step) then s.proposed[KeyOf(me, db) := Proposal(me, db, chosen)] else s.proposed)
    case DeliverBlock(_, db) =>
      var h := BlockOutcome(p, n, step);
      s.(nodes := s.nodes[me := NodeState(h.cache, h.store)], net := s.net + Sent(h.sends),
         stored := if StoresWell(p, n, step) then s.stored + {StoreEvent(me, db.(status := STATUS_EFFECTIVE))} else s.stored)
    case DeliverReply(_, log) =>
      var h := ReplyOutcome(p, n, step);
      s.(nodes := s.nodes[me := NodeState(h.cache, h.store)], net := s.net + Sent(h.sends),
         commits := s.commits + CommitsOf(me, h.committed),
         delivered := if Counts(me, log) then s.delivered + {(LogSlice(log.id), log.id.peerId)} else s.delivered)
  }

  /** Nothing cached, nothing sent; the tables of the nodes may hold anything. */
  ghost predicate Init(s: Sys) {
    && (forall me | me in s.nodes :: GoodPeer(me) && s.nodes[me].cache == map[])
    && s.net == {} && s.stored == {} && s.commits == [] && s.proposed == map[] && s.delivered == {}
  }

  ghost predicate Moves(p: Params, s: Sys, step: Step, t: Sys) { Enabled(p, s, step) && t == Exec(p, s, step) }

  /** A run: an initial system, and each next system reached by one step. */
  ghost predicate Run(p: Params, steps: seq<Step>, states: seq<Sys>) {
    && |states| == |steps| + 1 && Init(states[0])
    && forall i | 0 <= i < |steps| :: Moves(p, states[i], steps[i], states[i + 1])
  }

  // ----- what every run keeps -----

  ghost predicate Ran(stored: set<StoreEvent>, id: LogId) {
    exists e :: e in stored && LogOf(e.peer, e.block).id == id
  }

  predicate SoundBlock(db: DataBlock) { GoodPeer(db.primaryPeerId) && GoodList(Peers(db)) }

  predicate SoundEvent(e: StoreEvent) {
    SoundBlock(e.block) && e.peer in Peers(e.block) && e.peer != e.block.primaryPeerId
  }

  ghost predicate SoundLog(stored: set<StoreEvent>, log: ConsensusLog) {
    && log.id.status == CONSENSUS_REPLY && GoodPeer(log.id.primaryPeerId) && ColonFree(log.id.peerId)
    && (log.id.peerId == "" || log.id.peerId == log.id.primaryPeerId || Ran(stored, log.id))
  }

  ghost predicate SoundMessage(stored: set<StoreEvent>, m: Message) {
    match m
    case Commited(to, db) => SoundBlock(db) && to in Peers(db) && to != db.primaryPeerId
    case Reply(_, log) => SoundLog(stored, log)
  }

  ghost predicate SoundEntry(stored: set<StoreEvent>, me: string, key: string, entry: CacheEntry) {
    match entry
    case BlockEntry(d) => key == DataKey(d.blockId, d.sliceNumber) && d.primaryPeerId == me && SoundBlock(d)
    case LogEntry(l) => key == LogKey(l.id) && l.id.primaryPeerId == me && l.id.peerId != me && SoundLog(stored, l)
  }

  ghost predicate SoundCache(stored: set<StoreEvent>, me: string, cache: Cache) {
    forall k | k in cache :: SoundEntry(stored, me, k, cache[k])
  }

  /** Peer `q` ran StoreValue successfully for the committed slice. */
  ghost predicate RanSlice(stored: set<StoreEvent>, q: string, c: Commit) {
    exists e :: e in stored && e.peer == q && KeyOf(e.block.primaryPeerId, e.block) == KeyOf(c.primary, c.block)
  }

  /** The peers that stand behind a commit. */
  ghost function Backers(stored: set<StoreEvent>, c: Commit): set<string> {
    set q | q in Peers(c.block) && q != c.primary && RanSlice(stored, q, c)
  }

  ghost predicate Backed(p: Params, stored: set<StoreEvent>, c: Commit) { |Backers(stored, c)| >= p.cfg.minPeers }

  ghost predicate Inv(p: Params, s: Sys) {
    && (forall m | m in s.net :: SoundMessage(s.stored, m))
    && (forall e | e in s.stored :: SoundEvent(e))
    && (forall me | me in s.nodes :: GoodPeer(me) && SoundCache(s.stored, me, s.nodes[me].cache))
    && (forall i | 0 <= i < |s.commits| :: Backed(p, s.stored, s.commits[i]))
  }

  // ----- lists of peers -----

  lemma PeersOfJoin(db: DataBlock, chosen: seq<string>)
    requires chosen != [] && GoodList(chosen) && db.peerIds == Join(chosen, ",")
    ensures Peers(db) == chosen
  {
    forall x | x in chosen ensures Separable(x, ",") {
      FreeOfFirst(x, ",");
    }
    SplitJoin(chosen, ",");
  }

  lemma ProposalSound(cfg: Config, me: string, db: DataBlock, nearest: seq<string>, chosen: seq<string>)
    requires GoodPeer(me) && GoodList(nearest) && ChosenFrom(cfg, nearest, chosen) && chosen != []
    ensures Peers(Proposal(me, db, chosen)) == chosen && SoundBlock(Proposal(me, db, chosen))
  {
    ChosenDistinct(cfg, nearest, chosen);
    PeersOfJoin(Proposal(me, db, chosen), chosen);
  }

  lemma {:induction false} NoticesSent(me: string, db: DataBlock, chosen: seq<string>, m: Message)
    ensures m in Notices(me, db, chosen) <==> m.Commited? && m.block == db && m.to in chosen && m.to != me
    decreases |chosen|
  {
    if chosen != [] {
      NoticesSent(me, db, chosen[..|chosen| - 1], m);
      assert chosen == chosen[..|chosen| - 1] + [chosen[|chosen| - 1]];
    }
  }

  // ----- counting -----

  /** The counted repliers are the listed ids whose key is in the cache, each once. */
  lemma {:induction false} RepliersAre(cache: Cache, request: LogId, ids: seq<string>)
    requires Distinct(ids)
    ensures forall q :: q in Repliers(cache, request, ids) <==>
                        q in ids && LogKey(request.(peerId := q, status := CONSENSUS_REPLY)) in cache
    ensures Distinct(Repliers(cache, request, ids))
    ensures |(set q | q in Repliers(cache, request, ids))| == |Repliers(cache, request, ids)|
    decreases |ids|
  {
    if ids != [] {
      var n := |ids| - 1;
      assert ids == ids[..n] + [ids[n]];
      RepliersAre(cache, request, ids[..n]);
    }
    DistinctSize(Repliers(cache, request, ids));
  }

  lemma {:induction false} DistinctSize(ids: seq<string>)
    requires Distinct(ids)
    ensures |(set q | q in ids)| == |ids|
    decreases |ids|
  {
    if ids != [] {
      var n := |ids| - 1;
      DistinctSize(ids[..n]);
      assert (set q | q in ids) == (set q | q in ids[..n]) + {ids[n]};
    }
  }

  lemma SmallerSet(x: set<string>, y: set<string>)
    requires x <= y
    ensures |x| <= |y|
  {
    assert y == x + (y - x);
  }

  /** A cached reply of a listed peer was sent by that peer after it stored the slice. */
  lemma CachedReplyRan(stored: set<StoreEvent>, me: string, cache: Cache, request: LogId, q: string)
    requires SoundCache(stored, me, cache) && GoodPeer(q) && GoodPeer(request.primaryPeerId)
    requires LogKey(request.(peerId := q, status := CONSENSUS_REPLY)) in cache
    ensures cache[LogKey(request.(peerId := q, status := CONSENSUS_REPLY))].LogEntry?
    ensures request.primaryPeerId == me && q != me
    ensures Ran(stored, request.(peerId := q, status := CONSENSUS_REPLY))
  {
    var id := request.(peerId := q, status := CONSENSUS_REPLY);
    var entry := cache[LogKey(id)];
    assert SoundEntry(stored, me, LogKey(id), entry);
    if entry.BlockEntry? {
      DataKeyIsNotLogKey(entry.block.blockId, entry.block.sliceNumber, id);
      assert false;
    } else {
      LogKeyInjective(entry.log.id, id);
    }
  }

  // ----- one step at a time -----

  lemma ProposeKeepsInv(p: Params, s: Sys, step: Step)
    requires Inv(p, s) && Enabled(p, s, step) && step.Propose?
    ensures Inv(p, Exec(p, s, step))
  {
    var me, n, t := step.me, s.nodes[step.me], Exec(p, s, step);
    if Caches(p, step) {
      var d := Proposal(me, step.db, step.chosen);
      ProposalSound(p.cfg, me, step.db, step.nearest, step.chosen);
      forall m | m in t.net ensures SoundMessage(t.stored, m) {
        NoticesSent(me, d, step.chosen, m);
      }
      assert t.nodes[me].cache == n.cache[DataKey(d.blockId, d.sliceNumber) := BlockEntry(d)];
    } else {
      assert t.nodes[me].cache == n.cache && t.net == s.net;
    }
  }

  lemma MoreStored(p: Params, s: Sys, stored: set<StoreEvent>)
    requires Inv(p, s) && s.stored <= stored && forall e | e in stored :: SoundEvent(e)
    ensures Inv(p, s.(stored := stored))
  {
    forall id: LogId | Ran(s.stored, id) ensures Ran(stored, id) {
      var e :| e in s.stored && LogOf(e.peer, e.block).id == id;
      assert e in stored;
    }
    forall i | 0 <= i < |s.commits| ensures Backed(p, stored, s.commits[i]) {
      var c := s.commits[i];
      forall q | q in Backers(s.stored, c) ensures q in Backers(stored, c) {
        var e :| e in s.stored && e.peer == q && KeyOf(e.block.primaryPeerId, e.block) == KeyOf(c.primary, c.block);
        assert e in stored;
      }
      SmallerSet(Backers(s.stored, c), Backers(stored, c));
    }
    forall m | m in s.net ensures SoundMessage(stored, m) {
      assert SoundMessage(s.stored, m);
    }
    forall me | me in s.nodes ensures SoundCache(stored, me, s.nodes[me].cache) {
      forall k | k in s.nodes[me].cache ensures SoundEntry(stored, me, k, s.nodes[me].cache[k]) {
        assert SoundEntry(s.stored, me, k, s.nodes[me].cache[k]);
      }
    }
  }

  lemma BlockKeepsInv(p: Params, s: Sys, step: Step)
    requires Inv(p, s) && Enabled(p, s, step) && step.DeliverBlock?
    ensures Inv(p, Exec(p, s, step))
  {
    var me, n, db, t := step.me, s.nodes[step.me], step.db, Exec(p, s, step);
    assert SoundMessage(s.stored, Commited(me, db));
    assert t.nodes[me].cache == n.cache;
    if StoresWell(p, n, step) {
      var e := StoreEvent(me, db.(status := STATUS_EFFECTIVE));
      assert SoundEvent(e) && LogOf(e.peer, e.block).id == LogOf(me, db).id;
      MoreStored(p, s, t.stored);
      assert e in t.stored;
      assert Ran(t.stored, LogOf(me, db).id);
      assert t.net == s.net + {Reply(db.primaryPeerId, LogOf(me, db))};
    } else {
      assert t.net == s.net;
    }
  }

  /** `later` holds nothing but entries of `cache` and the reply just delivered. */
  ghost predicate FromReply(later: Cache, cache: Cache, log: ConsensusLog) {
    forall k | k in later ::
      (k in cache && later[k] == cache[k]) || (k == LogKey(log.id) && later[k] == LogEntry(log))
  }

  lemma DecisionCache(cfg: Config, cache: Cache, me: string, log: ConsensusLog)
    ensures FromReply(DecideReply(cfg, true, cache, me, log).cache, cache, log)
    ensures DecideReply(cfg, true, cache, me, log).cache == cache || Counts(me, log)
    ensures DecideReply(cfg, true, cache, me, log).CommitNow? ==> Counts(me, log)
  {
  }

  /** A commit empties no cache entry of its own accord, and tells the client as the primary or as nobody. */
  lemma FinalCommitShape(cache: Cache, store: Store, env: Env, db: DataBlock, request: LogId, blockType: string)
    ensures FinalCommit(cache, store, env, db, request, blockType).cache == cache
    ensures FinalCommit(cache, store, env, db, request, blockType).committed == [db]
    ensures forall m | m in FinalCommit(cache, store, env, db, request, blockType).sends ::
              && m.Reply? && (m.log.id.peerId == "" || m.log.id.peerId == env.myself)
              && m.log.id == request.(peerId := m.log.id.peerId, status := CONSENSUS_REPLY)
  {
  }

  lemma ReplyKeepsCache(p: Params, s: Sys, step: Step)
    requires Inv(p, s) && Enabled(p, s, step) && step.DeliverReply?
    ensures SoundCache(s.stored, step.me, DecideReply(p.cfg, true, s.nodes[step.me].cache, step.me, step.log).cache)
  {
    var cache := s.nodes[step.me].cache;
    DecisionCache(p.cfg, cache, step.me, step.log);
    assert SoundMessage(s.stored, Reply(step.me, step.log));
    var later := DecideReply(p.cfg, true, cache, step.me, step.log).cache;
    forall k | k in later ensures SoundEntry(s.stored, step.me, k, later[k]) {
    }
  }

  /** A reply step in terms of its decision. */
  lemma ReplyStep(p: Params, s: Sys, step: Step)
    requires Inv(p, s) && Enabled(p, s, step) && step.DeliverReply?
    ensures var d, t := DecideReply(p.cfg, true, s.nodes[step.me].cache, step.me, step.log), Exec(p, s, step);
            && t.nodes == s.nodes[step.me := NodeState(d.cache, t.nodes[step.me].store)]
            && t.stored == s.stored && t.proposed == s.proposed
            && t.commits == s.commits + (if d.CommitNow? then [Commit(step.me, d.block)] else [])
            && (d.Answer? ==> t.net == s.net)
            && s.net <= t.net
            && (forall m | m in t.net && m !in s.net ::
                  && d.CommitNow? && m.Reply? && (m.log.id.peerId == "" || m.log.id.peerId == step.me)
                  && m.log.id == step.log.id.(peerId := m.log.id.peerId, status := CONSENSUS_REPLY))
  {
    var n, env := s.nodes[step.me], EnvOf(p, step.me);
    var d := DecideReply(p.cfg, true, n.cache, step.me, step.log);
    if d.CommitNow? {
      FinalCommitShape(d.cache, n.store, env, d.block, step.log.id, step.log.blockType);
      assert CommitsOf(step.me, [d.block]) == [Commit(step.me, d.block)];
    } else {
      assert CommitsOf(step.me, []) == [];
    }
  }

  lemma ReplyKeepsInv(p: Params, s: Sys, step: Step)
    requires Inv(p, s) && Enabled(p, s, step) && step.DeliverReply?
    ensures Inv(p, Exec(p, s, step))
  {
    var me, t := step.me, Exec(p, s, step);
    var d := DecideReply(p.cfg, true, s.nodes[me].cache, me, step.log);
    ReplyStep(p, s, step);
    ReplyKeepsCache(p, s, step);
    DecisionCache(p.cfg, s.nodes[me].cache, me, step.log);
    assert SoundMessage(s.stored, Reply(me, step.log));
    if d.CommitNow? {
      CommitBacked(p, s, step);
    }
    forall i | 0 <= i < |t.commits| ensures Backed(p, t.stored, t.commits[i]) {
      assert i < |s.commits| ==> t.commits[i] == s.commits[i];
    }
  }

  /** A commit is backed when it happens. */
  lemma CommitBacked(p: Params, s: Sys, step: Step)
    requires Inv(p, s) && Enabled(p, s, step) && step.DeliverReply?
    requires DecideReply(p.cfg, true, s.nodes[step.me].cache, step.me, step.log).CommitNow?
    ensures Backed(p, s.stored,
                   Commit(step.me, DecideReply(p.cfg, true, s.nodes[step.me].cache, step.me, step.log).block))
  {
    hide LogKey;
    hide DataKey;
    var me, cache, log := step.me, s.nodes[step.me].cache, step.log;
    var id := log.id;
    var block := cache[DataKey(id.blockId, id.sliceNumber)].block;
    var cache1 := if LogKey(id) in cache then cache else cache[LogKey(id) := LogEntry(log)];
    var replied := Repliers(cache1, id, Peers(block));
    var c := Commit(me, block.(status := STATUS_EFFECTIVE));
    assert SoundMessage(s.stored, Reply(me, log));
    assert SoundEntry(s.stored, me, DataKey(id.blockId, id.sliceNumber), BlockEntry(block));
    DataKeyInjective(block.blockId, block.sliceNumber, id.blockId, id.sliceNumber);
    RepliersAre(cache1, id, Peers(block));
    forall k | k in cache1 ensures SoundEntry(s.stored, me, k, cache1[k]) {
    }
    forall q | q in replied ensures q in Backers(s.stored, c) {
      ReplierBacks(s.stored, me, cache1, id, q, c);
    }
    SmallerSet((set q | q in replied), Backers(s.stored, c));
  }

  lemma ReplierBacks(stored: set<StoreEvent>, me: string, cache: Cache, request: LogId, q: string, c: Commit)
    requires SoundCache(stored, me, cache) && GoodPeer(q) && GoodPeer(request.primaryPeerId)
    requires LogKey(request.(peerId := q, status := CONSENSUS_REPLY)) in cache
    requires c.primary == me && LogSlice(request) == KeyOf(me, c.block) && q in Peers(c.block)
    ensures q in Backers(stored, c)
  {
    hide LogKey;
    CachedReplyRan(stored, me, cache, request, q);
    var e :| e in stored && LogOf(e.peer, e.block).id == request.(peerId := q, status := CONSENSUS_REPLY);
    assert e.peer == q && KeyOf(e.block.primaryPeerId, e.block) == KeyOf(me, c.block);
    assert RanSlice(stored, q, c);
  }

  lemma StepKeepsInv(p: Params, s: Sys, step: Step)
    requires Inv(p, s) && Enabled(p, s, step)
    ensures Inv(p, Exec(p, s, step))
  {
    match step
    case Propose(_, _, _, _) => ProposeKeepsInv(p, s, step);
    case DeliverBlock(_, _) => BlockKeepsInv(p, s, step);
    case DeliverReply(_, _) => ReplyKeepsInv(p, s, step);
  }

  lemma {:induction false} InvOverRuns(p: Params, steps: seq<Step>, states: seq<Sys>, k: nat)
    requires Run(p, steps, states) && k <= |steps|
    ensures Inv(p, states[k])
  {
    hide Inv;
    hide Exec;
    hide Enabled;
    if k > 0 {
      InvOverRuns(p, steps, states, k - 1);
      assert Moves(p, states[k - 1], steps[k - 1], states[k - 1 + 1]);
      StepKeepsInv(p, states[k - 1], steps[k - 1]);
    } else {
      InitInv(p, states[0]);
    }
  }

  lemma InitInv(p: Params, s: Sys)
    requires Init(s)
    ensures Inv(p, s)
  {
  }

  /** Over every run, with any delivery order, loss and repetition, and any number of proposals for a slice: each final
      commit is backed by at least the required number of distinct listed peers, none of them the primary, each of
      which ran StoreValue successfully for that slice. */
  lemma CommitsAreBacked(p: Params, steps: seq<Step>, states: seq<Sys>, k: nat, c: Commit)
    requires Run(p, steps, states) && k <= |steps| && c in states[k].commits
    ensures |Backers(states[k].stored, c)| >= p.cfg.minPeers
    ensures c.primary !in Backers(states[k].stored, c)
    ensures Backers(states[k].stored, c) <= (set q | q in Peers(c.block))
  {
    InvOverRuns(p, steps, states, k);
    var i :| 0 <= i < |states[k].commits| && states[k].commits[i] == c;
    assert Backed(p, states[k].stored, states[k].commits[i]);
  }
}
