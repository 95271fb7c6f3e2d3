/** What the replication protocol leaves in the tables of its nodes: an answer is given, and the client is told, only
    for a slice that can then be read on the node. */
module ReplicaStores {
  import Text
  import opened CacheKeys
  import opened BlockModel
  import opened BlockStore
  import opened StoreOutcomes
  import opened StdConsensus
  import opened ConsensusRuns
  import opened SingleProposal
  import opened Wrappers

  /** A slice that brings a payload and is not a first one that counts nothing. */
  predicate Lasting(db: DataBlock) { db.transportPayload != "" && (db.sliceNumber != 1 || db.sliceSize >= 1) }

  lemma LastingIsHeld(s: Store, env: Env, db: DataBlock)
    requires Lasting(db) && (Acceptable(s, env, db) || StoreValue(s, env, db).result.Ok?)
    ensures Acceptable(s, env, db) && Holds(StoreValue(s, env, db).store, db)
  {
    hide StoreValue;
    hide Acceptable;
    hide Holds;
    UnacceptedChangesNothing(s, env, db);
    WrittenIsHeldExactly(s, env, db);
  }

  // ----- the first handler -----

  /** What a request leads to: refused, nothing changes; put to the chosen peers, the block is cached as it is sent to
      each of them but the primary; otherwise stored at once, and then a success means that it can be read. */
  lemma RequestOutcomes(cfg: Config, registered: bool, cache: Cache, store: Store, env: Env, db: DataBlock,
                        chosen: seq<string>)
    ensures var h := HandleConsensus(cfg, registered, cache, store, env, db, chosen);
            var foreign := db.primaryPeerId != "" && db.primaryPeerId != env.myself;
            if (db.transportPayload == "" && db.expireDate == 0) || !registered || foreign then
              && h.cache == cache && h.store == store && h.sends == [] && h.response.Failure?
              && (registered && (db.transportPayload != "" || db.expireDate != 0) ==> h.response == Failure("MustPrimaryPeer"))
            else if db.blockType != "ChatAttach" && cfg.minPeers > 0 && chosen != [] then
              var asked := db.(primaryPeerId := env.myself, peerIds := Text.Join(chosen, ","));
              && h.cache == cache[DataKey(db.blockId, db.sliceNumber) := BlockEntry(asked)] && h.store == store
              && h.response == Success("CONSENSUS")
              && (forall m :: m in h.sends <==> m.Commited? && m.block == asked && m.to in chosen && m.to != env.myself)
            else
              var kept := db.(primaryPeerId := env.myself, status := "Effective");
              && h.cache == cache && h.sends == []
              && (h.response.Success? || h.response.ErrorMessage?) && h.response.messageType == "CONSENSUS_REPLY"
              && (Lasting(db) && h.response.Success? ==> Holds(h.store, kept))
    ensures HandleConsensus(cfg, registered, cache, store, env, db, chosen).committed == []
  {
    hide StoreValue;
    hide Holds;
    hide DataKey;
    var kept := db.(primaryPeerId := env.myself, status := "Effective");
    if Lasting(db) && StoreValue(store, env, kept).result.Ok? {
      LastingIsHeld(store, env, kept);
    }
    var asked := Proposal(env.myself, db, chosen);
    forall m
      ensures m in Notices(env.myself, asked, chosen) <==>
              m.Commited? && m.block == asked && m.to in chosen && m.to != env.myself
    {
      NoticesSent(env.myself, asked, chosen, m);
    }
    hide Notices;
  }

  // ----- the second handler -----

  /** A reply says that the slice is held: it goes to the primary, names slice, type and payload hash, and if the slice
      lasts it can be read on this node from now on. It is held even where no reply is sent, if it is acceptable. */
  lemma ReplyMeansHeld(registered: bool, cache: Cache, store: Store, env: Env, db: DataBlock)
    ensures var h := HandleCommited(registered, cache, store, env, db);
            && h.cache == cache && h.committed == []
            && (h.sends == [] <==> h.response.Failure?)
            && (h.sends != [] ==>
                  && registered && h.response == Nothing
                  && h.sends == [Reply(db.primaryPeerId,
                                       ConsensusLog(LogId(db.primaryPeerId, db.blockId, db.sliceNumber, db.primarySequenceId,
                                                          env.myself, "CONSENSUS_REPLY"), db.blockType, db.payloadHash))])
            && (Lasting(db) && (h.sends != [] || (registered && Acceptable(store, env, db.(status := "Effective")))) ==>
                  Holds(h.store, db.(status := "Effective")))
            && (!registered ==> h.store == store)
  {
    hide StoreValue;
    hide Acceptable;
    hide Holds;
    var kept := db.(status := "Effective");
    if Lasting(db) && (Acceptable(store, env, kept) || StoreValue(store, env, kept).result.Ok?) {
      LastingIsHeld(store, env, kept);
    }
  }

  /** And a reply to the deletion of a stored block says that no slice of it is left. */
  lemma ReplyMeansDeleted(registered: bool, cache: Cache, store: Store, env: Env, db: DataBlock)
    requires db.transportPayload == "" && db.sliceNumber == 1 && SliceId(db.blockId, 1) in store.rows
    requires HandleCommited(registered, cache, store, env, db).sends != []
    ensures forall id | id in HandleCommited(registered, cache, store, env, db).store.rows :: id.blockId != db.blockId
  {
    var kept := db.(status := STATUS_EFFECTIVE);
    AcceptableExactly(store, env, kept);
    UnacceptedChangesNothing(store, env, kept);
    hide Judge;
    hide Acceptable;
  }

  // ----- the third handler -----

  /** The reply contradicts the one in the cache. */
  predicate Contradicts(registered: bool, cache: Cache, me: string, log: ConsensusLog) {
    && registered && log.id.peerId != log.id.primaryPeerId == me
    && DataKey(log.id.blockId, log.id.sliceNumber) in cache
    && cache[DataKey(log.id.blockId, log.id.sliceNumber)].BlockEntry?
    && LogKey(log.id) in cache && cache[LogKey(log.id)].LogEntry?
    && log.payloadHash != "" && log.payloadHash != cache[LogKey(log.id)].log.payloadHash
  }

  /** A reply with another payload hash than the same peer sent before is refused and changes nothing. */
  lemma ContradictionRefusedExactly(cfg: Config, registered: bool, cache: Cache, store: Store, env: Env, log: ConsensusLog)
    ensures HandleReply(cfg, registered, cache, store, env, log).response == Failure("ErrorPayloadHash") <==>
            Contradicts(registered, cache, env.myself, log)
    ensures Contradicts(registered, cache, env.myself, log) ==>
              HandleReply(cfg, registered, cache, store, env, log) ==
              Handled(cache, store, Failure("ErrorPayloadHash"), [], [])
  {
    assert "ErrorPayloadHash"[0] == 'E' && "NoMyselfPeer"[0] == 'N';
    assert "peerId == primaryPeerId"[0] == 'p' && "primaryPeerId != myPeerId"[0] == 'p';
    assert "panic: interface conversion"[0] == 'p';
    hide StoreValue;
    hide LogKey;
    hide DataKey;
    hide Repliers;
    hide ReplyKeys;
    hide Mistyped;
  }

  /** A reply that is not another peer's answer to this primary is refused, and one for a slice that is not pending is
      ignored; neither changes anything. */
  lemma UncalledReplyChangesNothing(cfg: Config, registered: bool, cache: Cache, store: Store, env: Env, log: ConsensusLog)
    ensures var h := HandleReply(cfg, registered, cache, store, env, log);
            var id := log.id;
            && (!registered || id.peerId == id.primaryPeerId || id.primaryPeerId != env.myself ==>
                  h == Handled(cache, store, h.response, [], []) && h.response.Failure?)
            && (registered && id.peerId != id.primaryPeerId == env.myself && DataKey(id.blockId, id.sliceNumber) !in cache ==>
                  h == Handled(cache, store, Nothing, [], []))
  {
  }

  /** What a commit does: it concerns the block that was cached for the slice, now effective; the owner is told in the
      name of this primary, or of nobody for a deletion, and being told means that a slice that lasts can be read here.
      Without a commit the tables stay and nobody is told. */
  lemma NoticeMeansHeld(cfg: Config, registered: bool, cache: Cache, store: Store, env: Env, log: ConsensusLog)
    ensures var h, key := HandleReply(cfg, registered, cache, store, env, log), DataKey(log.id.blockId, log.id.sliceNumber);
            if h.committed == [] then h.store == store && h.sends == []
            else
              && key in cache && cache[key].BlockEntry? && h.response == Nothing
              && var d := cache[key].block.(status := "Effective");
                 && h.committed == [d]
                 && (h.sends == [] || exists told: string ::
                       && (told == "" || told == env.myself)
                       && h.sends == [Reply(d.peerId, ConsensusLog(log.id.(peerId := told, status := "CONSENSUS_REPLY"),
                                                                   log.blockType, ""))])
                 && (Lasting(d) && (h.sends != [] || Acceptable(store, env, d)) ==> Holds(h.store, d))
  {
    hide StoreValue;
    hide Acceptable;
    hide Holds;
    hide LogKey;
    hide DataKey;
    hide Repliers;
    hide ReplyKeys;
    hide Mistyped;
    match DecideReply(cfg, registered, cache, env.myself, log)
    case Answer(_, _) =>
    case CommitNow(c, d) =>
      if Lasting(d) && (Acceptable(store, env, d) || StoreValue(store, env, d).result.Ok?) {
        LastingIsHeld(store, env, d);
      }
      CommitTells(c, store, env, d, log.id, log.blockType);
      hide FinalCommit;
  }

  lemma CommitTells(cache: Cache, store: Store, env: Env, db: DataBlock, request: LogId, blockType: string)
    ensures var h := FinalCommit(cache, store, env, db, request, blockType);
            && h.store == StoreValue(store, env, db).store && h.committed == [db] && h.response == Nothing
            && (h.sends != [] <==> StoreValue(store, env, db).result.Ok?)
            && (h.sends == [] || exists told: string ::
                  && (told == "" || told == env.myself)
                  && h.sends == [Reply(db.peerId, ConsensusLog(request.(peerId := told, status := "CONSENSUS_REPLY"),
                                                               blockType, ""))])
  {
    hide StoreValue;
    hide Judge;
    var h := FinalCommit(cache, store, env, db, request, blockType);
    if h.sends != [] {
      var told := h.sends[0].log.id.peerId;
      assert h.sends ==
             [Reply(db.peerId, ConsensusLog(request.(peerId := told, status := "CONSENSUS_REPLY"), blockType, ""))];
    }
  }

  // ----- runs -----

  /** The slice can be read on the node. */
  predicate HeldOn(s: Sys, me: string, db: DataBlock) { me in s.nodes && Holds(s.nodes[me].store, db) }

  /** A step that records that a peer stored a slice leaves that slice readable on that peer. */
  lemma StoreEventIsHeld(p: Params, s: Sys, step: Step, e: StoreEvent)
    requires Enabled(p, s, step) && e in Exec(p, s, step).stored && e !in s.stored && Lasting(e.block)
    ensures step.DeliverBlock? && e.peer == step.me && HeldOn(Exec(p, s, step), e.peer, e.block)
  {
    hide StoreValue;
    hide Holds;
    hide Acceptable;
    hide HandleReply;
    hide HandleConsensus;
    var n := s.nodes[step.me];
    match step
    case Propose(_, _, _, _) =>
    case DeliverReply(_, _) =>
    case DeliverBlock(me, db) =>
      LastingIsHeld(n.store, EnvOf(p, me), db.(status := STATUS_EFFECTIVE));
  }

  /** A step that commits and tells the owner leaves the committed slice readable on the primary. */
  lemma NoticeIsHeld(p: Params, s: Sys, step: Step, c: Commit)
    requires Enabled(p, s, step) && step.DeliverReply? && Exec(p, s, step).commits == s.commits + [c]
    requires Lasting(c.block) && ReplyOutcome(p, s.nodes[step.me], step).sends != []
    ensures c.primary == step.me && HeldOn(Exec(p, s, step), c.primary, c.block)
  {
    var n := s.nodes[step.me];
    NoticeMeansHeld(p.cfg, true, n.cache, n.store, EnvOf(p, step.me), step.log);
    hide HandleReply;
    hide Holds;
    hide DataKey;
    var committed := ReplyOutcome(p, n, step).committed;
    assert Exec(p, s, step).commits == s.commits + CommitsOf(step.me, committed);
    OneCommit(s.commits, step.me, committed, c);
  }

  lemma OneCommit(before: seq<Commit>, me: string, committed: seq<DataBlock>, c: Commit)
    requires before + CommitsOf(me, committed) == before + [c]
    ensures committed == [c.block] && c.primary == me
  {
    assert (before + [c])[|before|..] == [c] && (before + CommitsOf(me, committed))[|before|..] == CommitsOf(me, committed);
    assert CommitsOf(me, committed)[0] == c;
  }

  ghost predicate EventHeldAt(states: seq<Sys>, j: nat, e: StoreEvent) {
    j < |states| && HeldOn(states[j], e.peer, e.block)
  }

  /** Over every run: whatever slice a peer is recorded to have stored could be read on it at some time. */
  lemma {:induction false} EventsWereHeld(p: Params, steps: seq<Step>, states: seq<Sys>, k: nat, e: StoreEvent)
    requires Run(p, steps, states) && k <= |steps| && e in states[k].stored && Lasting(e.block)
    ensures exists j: nat :: j <= k && EventHeldAt(states, j, e)
    decreases k
  {
    hide Exec;
    hide HeldOn;
    hide Enabled;
    if k > 0 {
      assert Moves(p, states[k - 1], steps[k - 1], states[k - 1 + 1]);
      if e in states[k - 1].stored {
        EventsWereHeld(p, steps, states, k - 1, e);
      } else {
        StoreEventIsHeld(p, states[k - 1], steps[k - 1], e);
        assert EventHeldAt(states, k, e);
      }
    }
  }

  /** The listed peers, other than the primary, on which the committed version could be read at some time up to step
      `k`. */
  ghost function Holders(states: seq<Sys>, k: nat, c: Commit): set<string> {
    set q | q in Peers(c.block) && q != c.primary &&
            exists j: nat :: j <= k && EventHeldAt(states, j, StoreEvent(q, c.block))
  }

  /** So with one proposal for each slice, every commit is backed by at least the required number of distinct listed peers
      whose own tables held the committed version, payload and all, before or when it was committed. */
  lemma CommitsWereHeld(p: Params, steps: seq<Step>, states: seq<Sys>, k: nat, c: Commit)
    requires SingleRun(p, steps, states) && k <= |steps| && c in states[k].commits && Lasting(c.block)
    ensures |Holders(states, k, c)| >= p.cfg.minPeers
  {
    hide EventHeldAt;
    CommitsAreBackedByVersion(p, steps, states, k, c);
    var version := set q | q in Peers(c.block) && q != c.primary && StoreEvent(q, c.block) in states[k].stored;
    forall q | q in version ensures q in Holders(states, k, c) {
      EventsWereHeld(p, steps, states, k, StoreEvent(q, c.block));
    }
    SmallerSet(version, Holders(states, k, c));
  }

  // ----- what becomes of the slices -----

  /** The block a step hands to the store of its node, if any. */
  function BlockStored(p: Params, s: Sys, step: Step): Option<DataBlock>
    requires step.me in s.nodes && GoodPeer(step.me)
  {
    match step
    case Propose(me, db, _, chosen) =>
      if Refusal(me, true, db) != Nothing || Replicates(p.cfg, db, chosen) then None
      else Some(db.(primaryPeerId := me, status := STATUS_EFFECTIVE))
    case DeliverBlock(_, db) => Some(db.(status := STATUS_EFFECTIVE))
    case DeliverReply(me, log) =>
      match DecideReply(p.cfg, true, s.nodes[me].cache, me, log)
      case Answer(_, _) => None
      case CommitNow(_, block) => Some(block)
  }

  lemma StepStores(p: Params, s: Sys, step: Step)
    requires Enabled(p, s, step)
    ensures Exec(p, s, step).nodes.Keys == s.nodes.Keys
    ensures forall me | me in s.nodes && me != step.me :: Exec(p, s, step).nodes[me] == s.nodes[me]
    ensures var before := s.nodes[step.me].store;
            Exec(p, s, step).nodes[step.me].store ==
            match BlockStored(p, s, step)
            case None => before
            case Some(d) => StoreValue(before, EnvOf(p, step.me), d).store
  {
    hide StoreValue;
    hide DecideReply;
    hide Notices;
  }

  /** The step explains that its node changed or lost a slice: the block it stored there succeeds what was stored of the
      same slice, or of the first one of its block, signature and all. */
  ghost predicate Replaces(p: Params, s: Sys, step: Step, id: SliceId) {
    && step.me in s.nodes && GoodPeer(step.me) && BlockStored(p, s, step).Some?
    && var d, rows := BlockStored(p, s, step).value, s.nodes[step.me].store.rows;
       && d.blockId == id.blockId && (SliceOf(d) == id || d.sliceNumber == 1) && SliceOf(d) in rows
       && Succeeds(EnvOf(p, step.me), rows[SliceOf(d)], d)
  }

  /** The row of a slice on a node. */
  function RowOn(s: Sys, me: string, id: SliceId): Option<DataBlock> {
    if me in s.nodes && id in s.nodes[me].store.rows then Some(s.nodes[me].store.rows[id]) else None
  }

  lemma StepReplaces(p: Params, s: Sys, step: Step, me: string, id: SliceId)
    requires Enabled(p, s, step) && RowOn(s, me, id).Some? && RowOn(Exec(p, s, step), me, id) != RowOn(s, me, id)
    ensures step.me == me && Replaces(p, s, step, id)
  {
    StepStores(p, s, step);
    hide Exec;
    hide Succeeds;
    hide StoreValue;
    hide BlockStored;
    if BlockStored(p, s, step).Some? {
      var d, store := BlockStored(p, s, step).value, s.nodes[step.me].store;
      if step.me == me {
        ChangesAreAuthorised(store, EnvOf(p, me), d, id);
      }
    }
  }

  ghost predicate ReplacedAt(p: Params, steps: seq<Step>, states: seq<Sys>, i: nat, me: string, id: SliceId, row: DataBlock)
    requires |states| == |steps| + 1
  {
    i < |steps| && RowOn(states[i], me, id) == Some(row) && steps[i].me == me && Replaces(p, states[i], steps[i], id)
  }

  /** Over every run, a slice that a node holds stays on it as it is until a step on that node replaces it with the
      authority of its owner, or of the owner of its block's first slice: no message, late, repeated or lost, makes a
      node forget a slice. */
  lemma {:induction false} HeldUntilReplaced(p: Params, steps: seq<Step>, states: seq<Sys>, j: nat, k: nat, me: string,
                                             id: SliceId)
    requires Run(p, steps, states) && j <= k <= |steps| && RowOn(states[j], me, id).Some?
    requires RowOn(states[k], me, id) != RowOn(states[j], me, id)
    ensures exists i: nat :: j <= i < k && ReplacedAt(p, steps, states, i, me, id, RowOn(states[j], me, id).value)
    decreases k
  {
    hide Exec;
    hide Enabled;
    hide RowOn;
    hide Replaces;
    var row := RowOn(states[j], me, id).value;
    assert Moves(p, states[k - 1], steps[k - 1], states[k - 1 + 1]);
    if RowOn(states[k - 1], me, id) == Some(row) {
      StepReplaces(p, states[k - 1], steps[k - 1], me, id);
      assert ReplacedAt(p, steps, states, k - 1, me, id, row);
    } else {
      HeldUntilReplaced(p, steps, states, j, k - 1, me, id);
    }
  }
}
