/** Runs in which a primary caches at most one proposal for a slice: there the primary commits exactly at the delivery
    that completes the quorum, never again, and keeps nothing afterwards. */
module SingleProposal {
  import opened CacheKeys
  import opened BlockModel
  import opened StdConsensus
  import opened ConsensusRuns

  ghost predicate FreshProposal(p: Params, s: Sys, step: Step) {
    step.Propose? && Caches(p, step) ==> KeyOf(step.me, step.db) !in s.proposed
  }

  ghost predicate SingleRun(p: Params, steps: seq<Step>, states: seq<Sys>) {
    Run(p, steps, states) && forall i | 0 <= i < |steps| :: FreshProposal(p, states[i], steps[i])
  }

  /** The log key under which a listed peer's reply to `d` is cached. */
  function ReplyId(d: DataBlock, q: string): LogId { LogOf(q, d).id }

  predicate Pending(s: Sys, key: SliceKey)
    requires key.primary in s.nodes
  {
    DataKey(key.blockId, key.sliceNumber) in s.nodes[key.primary].cache
  }

  /** The listed peers whose reply has reached the primary. */
  function Heard(s: Sys, key: SliceKey): set<string>
    requires key in s.proposed
  {
    set q | q in Peers(s.proposed[key]) && (key, q) in s.delivered
  }

  function Effective(d: DataBlock): DataBlock { d.(status := STATUS_EFFECTIVE) }

  /** A proposal is what its key says, and its primary is one of the nodes. */
  ghost predicate ProposalsOk(p: Params, s: Sys) {
    forall key | key in s.proposed ::
      var d := s.proposed[key];
      key.primary in s.nodes && KeyOf(d.primaryPeerId, d) == key && SoundBlock(d) && p.cfg.minPeers > 0
  }

  ghost predicate IsProposed(s: Sys, d: DataBlock) {
    var key := KeyOf(d.primaryPeerId, d);
    key in s.proposed && s.proposed[key] == d
  }

  ghost predicate EventOk(s: Sys, e: StoreEvent) {
    var key := KeyOf(e.block.primaryPeerId, e.block);
    key in s.proposed && Effective(s.proposed[key]) == e.block
  }

  ghost predicate MessageOk(s: Sys, m: Message) {
    match m
    case Commited(_, d) => IsProposed(s, d)
    case Reply(_, l) =>
      var key, q := LogSlice(l.id), l.id.peerId;
      && key in s.proposed && key.primary in s.nodes
      && (if q == "" || q == key.primary then !Pending(s, key)
          else l == LogOf(q, s.proposed[key]) && q in Peers(s.proposed[key]))
  }

  ghost predicate EntryOk(s: Sys, me: string, entry: CacheEntry) {
    match entry
    case BlockEntry(d) => IsProposed(s, d)
    case LogEntry(l) =>
      var key, q := LogSlice(l.id), l.id.peerId;
      && key in s.proposed && key.primary == me && me in s.nodes && Pending(s, key)
      && l == LogOf(q, s.proposed[key]) && q in Peers(s.proposed[key]) && (key, q) in s.delivered
  }

  ghost predicate DeliveredOk(s: Sys) {
    forall x | x in s.delivered :: x.0 in s.proposed && x.1 != x.0.primary
  }

  /** While a slice is pending, its cached replies are those delivered. */
  ghost predicate RepliesCached(s: Sys, key: SliceKey)
    requires key in s.proposed && key.primary in s.nodes
  {
    Pending(s, key) ==>
      forall q | q in Peers(s.proposed[key]) ::
        LogKey(ReplyId(s.proposed[key], q)) in s.nodes[key.primary].cache <==> (key, q) in s.delivered
  }

  ghost predicate QuorumOk(p: Params, s: Sys, key: SliceKey)
    requires key in s.proposed && key.primary in s.nodes
  {
    Pending(s, key) <==> |Heard(s, key)| < p.cfg.minPeers
  }

  function CommitKey(c: Commit): SliceKey { KeyOf(c.primary, c.block) }

  ghost predicate CommitsOk(s: Sys) {
    && (forall i | 0 <= i < |s.commits| ::
          var key := CommitKey(s.commits[i]);
          && key in s.proposed && key.primary in s.nodes && !Pending(s, key)
          && s.commits[i].block == Effective(s.proposed[key]))
    && (forall i, j | 0 <= i < j < |s.commits| :: CommitKey(s.commits[i]) != CommitKey(s.commits[j]))
    && (forall key | key in s.proposed && key.primary in s.nodes && !Pending(s, key) ::
          exists i :: 0 <= i < |s.commits| && CommitKey(s.commits[i]) == key)
  }

  ghost predicate CachesOk(s: Sys) {
    forall me | me in s.nodes :: forall k | k in s.nodes[me].cache :: EntryOk(s, me, s.nodes[me].cache[k])
  }

  ghost predicate Single(p: Params, s: Sys) {
    && ProposalsOk(p, s) && DeliveredOk(s) && CommitsOk(s) && CachesOk(s)
    && (forall e | e in s.stored :: EventOk(s, e))
    && (forall m | m in s.net :: MessageOk(s, m))
    && (forall key | key in s.proposed :: RepliesCached(s, key) && QuorumOk(p, s, key))
  }

  // ----- keys in one cache -----

  lemma BlockAt(stored: set<StoreEvent>, me: string, cache: Cache, blockId: string, sliceNumber: nat)
    requires SoundCache(stored, me, cache) && DataKey(blockId, sliceNumber) in cache
    ensures var e := cache[DataKey(blockId, sliceNumber)];
            e.BlockEntry? && KeyOf(e.block.primaryPeerId, e.block) == SliceKey(me, blockId, sliceNumber)
  {
    var k := DataKey(blockId, sliceNumber);
    assert SoundEntry(stored, me, k, cache[k]);
    match cache[k]
    case BlockEntry(d) => DataKeyInjective(d.blockId, d.sliceNumber, blockId, sliceNumber);
    case LogEntry(l) => DataKeyIsNotLogKey(blockId, sliceNumber, l.id);
  }

  lemma LogAt(stored: set<StoreEvent>, me: string, cache: Cache, id: LogId)
    requires SoundCache(stored, me, cache) && LogKey(id) in cache
    requires id.status == CONSENSUS_REPLY && ColonFree(id.primaryPeerId) && ColonFree(id.peerId)
    ensures var e := cache[LogKey(id)]; e.LogEntry? && e.log.id == id
  {
    assert SoundEntry(stored, me, LogKey(id), cache[LogKey(id)]);
    match cache[LogKey(id)]
    case BlockEntry(d) => DataKeyIsNotLogKey(d.blockId, d.sliceNumber, id);
    case LogEntry(l) => LogKeyInjective(l.id, id);
  }

  // ----- proposing -----

  lemma QuietKeepsSingle(p: Params, s: Sys, t: Sys)
    requires Single(p, s)
    requires t.net == s.net && t.stored == s.stored && t.commits == s.commits && t.proposed == s.proposed
    requires t.delivered == s.delivered && t.nodes.Keys == s.nodes.Keys
    requires forall me | me in s.nodes :: t.nodes[me].cache == s.nodes[me].cache
    ensures Single(p, t)
  {
    forall key: SliceKey | key.primary in s.nodes ensures Pending(t, key) == Pending(s, key) {
    }
    forall key | key in s.proposed ensures Heard(t, key) == Heard(s, key) {
    }
    forall me, k | me in t.nodes && k in t.nodes[me].cache ensures EntryOk(t, me, t.nodes[me].cache[k]) {
      assert EntryOk(s, me, s.nodes[me].cache[k]);
    }
    forall m | m in t.net ensures MessageOk(t, m) {
      assert MessageOk(s, m);
    }
    forall e | e in t.stored ensures EventOk(t, e) {
      assert EventOk(s, e);
    }
    forall key | key in t.proposed ensures RepliesCached(t, key) && QuorumOk(p, t, key) {
      assert RepliesCached(s, key) && QuorumOk(p, s, key);
    }
  }

  /** A cached proposal adds one block entry, its notices, and its record. */
  lemma ProposeShape(p: Params, s: Sys, step: Step)
    requires Enabled(p, s, step) && step.Propose? && Caches(p, step)
    ensures var d := Proposal(step.me, step.db, step.chosen);
            var t := Exec(p, s, step);
            && t == s.(nodes := t.nodes, net := t.net, proposed := s.proposed[KeyOf(step.me, d) := d])
            && t.nodes.Keys == s.nodes.Keys && (forall n | n in s.nodes && n != step.me :: t.nodes[n] == s.nodes[n])
            && t.nodes[step.me].cache == s.nodes[step.me].cache[DataKey(d.blockId, d.sliceNumber) := BlockEntry(d)]
            && s.net <= t.net && (forall m | m in t.net :: m in s.net || (m.Commited? && m.block == d))
            && SoundBlock(d)
  {
    var d := Proposal(step.me, step.db, step.chosen);
    ProposalSound(p.cfg, step.me, step.db, step.nearest, step.chosen);
    forall m | m in Sent(Notices(step.me, d, step.chosen)) ensures m.Commited? && m.block == d {
      NoticesSent(step.me, d, step.chosen, m);
    }
  }

  /** Nothing about a slice that was never proposed is cached or delivered. */
  lemma UnproposedUnknown(p: Params, s: Sys, d: DataBlock)
    requires Inv(p, s) && Single(p, s) && SoundBlock(d) && d.primaryPeerId in s.nodes
    requires KeyOf(d.primaryPeerId, d) !in s.proposed
    ensures DataKey(d.blockId, d.sliceNumber) !in s.nodes[d.primaryPeerId].cache
    ensures forall q | q in Peers(d) :: LogKey(ReplyId(d, q)) !in s.nodes[d.primaryPeerId].cache
    ensures forall q :: (KeyOf(d.primaryPeerId, d), q) !in s.delivered
  {
    var me, cache := d.primaryPeerId, s.nodes[d.primaryPeerId].cache;
    if DataKey(d.blockId, d.sliceNumber) in cache {
      BlockProposed(p, s, me, d.blockId, d.sliceNumber);
    }
    forall q | q in Peers(d) ensures LogKey(ReplyId(d, q)) !in cache {
      if LogKey(ReplyId(d, q)) in cache {
        LogProposed(p, s, me, ReplyId(d, q));
      }
    }
  }

  lemma BlockProposed(p: Params, s: Sys, me: string, blockId: string, sliceNumber: nat)
    requires Inv(p, s) && Single(p, s) && me in s.nodes && DataKey(blockId, sliceNumber) in s.nodes[me].cache
    ensures SliceKey(me, blockId, sliceNumber) in s.proposed
    ensures s.nodes[me].cache[DataKey(blockId, sliceNumber)] == BlockEntry(s.proposed[SliceKey(me, blockId, sliceNumber)])
  {
    var cache := s.nodes[me].cache;
    BlockAt(s.stored, me, cache, blockId, sliceNumber);
    assert EntryOk(s, me, cache[DataKey(blockId, sliceNumber)]);
  }

  lemma LogProposed(p: Params, s: Sys, me: string, id: LogId)
    requires Inv(p, s) && Single(p, s) && me in s.nodes && LogKey(id) in s.nodes[me].cache
    requires id.status == CONSENSUS_REPLY && ColonFree(id.primaryPeerId) && ColonFree(id.peerId)
    ensures LogSlice(id) in s.proposed && id.primaryPeerId == me && Pending(s, LogSlice(id))
    ensures s.nodes[me].cache[LogKey(id)] == LogEntry(LogOf(id.peerId, s.proposed[LogSlice(id)]))
    ensures id.peerId in Peers(s.proposed[LogSlice(id)]) && (LogSlice(id), id.peerId) in s.delivered
  {
    var cache := s.nodes[me].cache;
    LogAt(s.stored, me, cache, id);
    assert EntryOk(s, me, cache[LogKey(id)]);
  }

  /** `t` is `s` with one more proposal. */
  ghost predicate Extends(s: Sys, t: Sys, d: DataBlock) {
    var me, key := d.primaryPeerId, KeyOf(d.primaryPeerId, d);
    && me in s.nodes && key !in s.proposed && SoundBlock(d)
    && t == s.(nodes := t.nodes, net := t.net, proposed := s.proposed[key := d])
    && t.nodes.Keys == s.nodes.Keys && (forall n | n in s.nodes && n != me :: t.nodes[n] == s.nodes[n])
    && t.nodes[me].cache == s.nodes[me].cache[DataKey(d.blockId, d.sliceNumber) := BlockEntry(d)]
    && (forall m | m in t.net :: m in s.net || (m.Commited? && m.block == d))
  }

  lemma OtherSlicesKept(p: Params, s: Sys, t: Sys, d: DataBlock, other: SliceKey)
    requires Inv(p, s) && Single(p, s) && Extends(s, t, d)
    requires other != KeyOf(d.primaryPeerId, d) && other.primary in s.nodes
    ensures Pending(t, other) == Pending(s, other)
    ensures other in s.proposed ==> Heard(t, other) == Heard(s, other) && RepliesCached(t, other) && QuorumOk(p, t, other)
  {
    if DataKey(other.blockId, other.sliceNumber) == DataKey(d.blockId, d.sliceNumber) {
      DataKeyInjective(other.blockId, other.sliceNumber, d.blockId, d.sliceNumber);
    }
    if other in s.proposed {
      assert Heard(t, other) == Heard(s, other);
      assert RepliesCached(s, other) && QuorumOk(p, s, other);
      forall q | q in Peers(s.proposed[other])
        ensures DataKey(d.blockId, d.sliceNumber) != LogKey(ReplyId(s.proposed[other], q))
      {
        DataKeyIsNotLogKey(d.blockId, d.sliceNumber, ReplyId(s.proposed[other], q));
      }
    }
  }

  lemma NewSliceStarts(p: Params, s: Sys, t: Sys, d: DataBlock)
    requires Inv(p, s) && Single(p, s) && Extends(s, t, d) && p.cfg.minPeers > 0
    ensures var key := KeyOf(d.primaryPeerId, d);
            Pending(t, key) && RepliesCached(t, key) && QuorumOk(p, t, key)
  {
    var key := KeyOf(d.primaryPeerId, d);
    UnproposedUnknown(p, s, d);
    assert Heard(t, key) == {};
    forall q | q in Peers(d) ensures LogKey(ReplyId(d, q)) !in t.nodes[key.primary].cache {
      DataKeyIsNotLogKey(d.blockId, d.sliceNumber, ReplyId(d, q));
    }
  }

  lemma ExtendKeepsPending(p: Params, s: Sys, t: Sys, d: DataBlock)
    requires Inv(p, s) && Single(p, s) && Extends(s, t, d)
    ensures forall other: SliceKey | other != KeyOf(d.primaryPeerId, d) && other.primary in s.nodes ::
              Pending(t, other) == Pending(s, other)
  {
    hide Inv;
    hide Single;
    forall other: SliceKey | other != KeyOf(d.primaryPeerId, d) && other.primary in s.nodes
      ensures Pending(t, other) == Pending(s, other)
    {
      OtherSlicesKept(p, s, t, d, other);
    }
  }

  /** As far as single entries, messages and events are concerned, `t` only has one more proposal. */
  ghost predicate Grown(s: Sys, t: Sys, d: DataBlock) {
    var key := KeyOf(d.primaryPeerId, d);
    && t.nodes.Keys == s.nodes.Keys && t.delivered == s.delivered
    && key !in s.proposed && t.proposed == s.proposed[key := d]
    && forall other: SliceKey | other != key && other.primary in s.nodes :: Pending(t, other) == Pending(s, other)
  }

  lemma ExtendIsGrown(p: Params, s: Sys, t: Sys, d: DataBlock)
    requires Inv(p, s) && Single(p, s) && Extends(s, t, d)
    ensures Grown(s, t, d)
  {
    hide Inv;
    hide Single;
    ExtendKeepsPending(p, s, t, d);
  }

  lemma GrownEntry(s: Sys, t: Sys, d: DataBlock, me: string, entry: CacheEntry)
    requires Grown(s, t, d) && EntryOk(s, me, entry)
    ensures EntryOk(t, me, entry)
  {
    hide Pending;
  }

  lemma GrownMessage(s: Sys, t: Sys, d: DataBlock, m: Message)
    requires Grown(s, t, d) && MessageOk(s, m)
    ensures MessageOk(t, m)
  {
    hide Pending;
  }

  lemma GrownEvent(s: Sys, t: Sys, d: DataBlock, e: StoreEvent)
    requires Grown(s, t, d) && EventOk(s, e)
    ensures EventOk(t, e)
  {
    hide Pending;
  }

  /** The parts of the invariant, with what they say left out of sight. */
  lemma SingleHas(p: Params, s: Sys)
    requires Single(p, s)
    ensures ProposalsOk(p, s) && DeliveredOk(s) && CommitsOk(s) && CachesOk(s)
    ensures forall m | m in s.net :: MessageOk(s, m)
    ensures forall e | e in s.stored :: EventOk(s, e)
    ensures forall key | key in s.proposed :: key.primary in s.nodes && RepliesCached(s, key) && QuorumOk(p, s, key)
  {
    hide DeliveredOk;
    hide CommitsOk;
    hide CachesOk;
    hide MessageOk;
    hide EventOk;
    hide RepliesCached;
    hide QuorumOk;
  }

  lemma SingleFrom(p: Params, s: Sys)
    requires ProposalsOk(p, s) && DeliveredOk(s) && CommitsOk(s) && CachesOk(s)
    requires forall m | m in s.net :: MessageOk(s, m)
    requires forall e | e in s.stored :: EventOk(s, e)
    requires forall key | key in s.proposed :: key.primary in s.nodes && RepliesCached(s, key) && QuorumOk(p, s, key)
    ensures Single(p, s)
  {
    hide DeliveredOk;
    hide CommitsOk;
    hide CachesOk;
    hide MessageOk;
    hide EventOk;
    hide RepliesCached;
    hide QuorumOk;
  }

  lemma ExtendKeepsFacts(p: Params, s: Sys, t: Sys, d: DataBlock)
    requires Inv(p, s) && Single(p, s) && Extends(s, t, d)
    ensures CachesOk(t)
    ensures forall m | m in t.net :: MessageOk(t, m)
    ensures forall e | e in t.stored :: EventOk(t, e)
  {
    hide Inv;
    hide Single;
    hide EntryOk;
    hide MessageOk;
    hide EventOk;
    SingleHas(p, s);
    ExtendIsGrown(p, s, t, d);
    ProposedIsOk(s, t, d);
    forall n, k | n in t.nodes && k in t.nodes[n].cache ensures EntryOk(t, n, t.nodes[n].cache[k]) {
      if k in s.nodes[n].cache && t.nodes[n].cache[k] == s.nodes[n].cache[k] {
        assert EntryOk(s, n, s.nodes[n].cache[k]);
        GrownEntry(s, t, d, n, s.nodes[n].cache[k]);
      }
    }
    forall m | m in t.net ensures MessageOk(t, m) {
      if m in s.net {
        GrownMessage(s, t, d, m);
      }
    }
    forall e | e in t.stored ensures EventOk(t, e) {
      GrownEvent(s, t, d, e);
    }
  }

  lemma ProposedIsOk(s: Sys, t: Sys, d: DataBlock)
    requires Extends(s, t, d)
    ensures forall n :: EntryOk(t, n, BlockEntry(d))
    ensures forall m | m in t.net && m !in s.net :: MessageOk(t, m)
  {
  }

  lemma GrownCommits(s: Sys, t: Sys, d: DataBlock)
    requires Grown(s, t, d) && CommitsOk(s) && t.commits == s.commits
    requires var key := KeyOf(d.primaryPeerId, d); key.primary in s.nodes && Pending(t, key)
    ensures CommitsOk(t)
  {
    hide Pending;
    forall i | 0 <= i < |t.commits| ensures t.commits[i] == s.commits[i] && CommitKey(t.commits[i]) in s.proposed {
    }
  }

  lemma ExtendKeepsCommits(p: Params, s: Sys, t: Sys, d: DataBlock)
    requires Inv(p, s) && Single(p, s) && Extends(s, t, d) && p.cfg.minPeers > 0
    ensures ProposalsOk(p, t) && DeliveredOk(t) && CommitsOk(t)
  {
    hide Inv;
    hide CommitsOk;
    hide Pending;
    hide MessageOk;
    hide EventOk;
    hide EntryOk;
    NewSliceStarts(p, s, t, d);
    ExtendIsGrown(p, s, t, d);
    GrownCommits(s, t, d);
  }

  lemma ExtendKeepsSingle(p: Params, s: Sys, t: Sys, d: DataBlock)
    requires Inv(p, s) && Single(p, s) && Extends(s, t, d) && p.cfg.minPeers > 0
    ensures Single(p, t)
  {
    hide Inv;
    hide EntryOk;
    hide MessageOk;
    hide EventOk;
    hide CommitsOk;
    ExtendKeepsCommits(p, s, t, d);
    ExtendKeepsFacts(p, s, t, d);
    NewSliceStarts(p, s, t, d);
    forall other | other in t.proposed ensures RepliesCached(t, other) && QuorumOk(p, t, other) {
      if other != KeyOf(d.primaryPeerId, d) {
        OtherSlicesKept(p, s, t, d, other);
      }
    }
  }

  lemma ProposeKeepsSingle(p: Params, s: Sys, step: Step)
    requires Inv(p, s) && Single(p, s) && Enabled(p, s, step) && step.Propose? && FreshProposal(p, s, step)
    ensures Single(p, Exec(p, s, step))
  {
    if Caches(p, step) {
      ProposeShape(p, s, step);
      ExtendKeepsSingle(p, s, Exec(p, s, step), Proposal(step.me, step.db, step.chosen));
    } else {
      assert ProposeOutcome(p, s.nodes[step.me], step).cache == s.nodes[step.me].cache;
      QuietKeepsSingle(p, s, Exec(p, s, step));
    }
  }

  // ----- delivering a block -----

  /** A delivered block leaves the caches alone; when it is stored there is one more event and one more reply. */
  lemma BlockShape(p: Params, s: Sys, step: Step)
    requires Enabled(p, s, step) && step.DeliverBlock?
    ensures var t := Exec(p, s, step);
            && t == s.(nodes := t.nodes, net := t.net, stored := t.stored)
            && t.nodes.Keys == s.nodes.Keys && (forall n | n in s.nodes :: t.nodes[n].cache == s.nodes[n].cache)
            && (forall e | e in t.stored :: e in s.stored || e == StoreEvent(step.me, Effective(step.db)))
            && (forall m | m in t.net :: m in s.net || m == Reply(step.db.primaryPeerId, LogOf(step.me, step.db)))
  {
  }

  lemma BlockKeepsSingle(p: Params, s: Sys, step: Step)
    requires Inv(p, s) && Single(p, s) && Enabled(p, s, step) && step.DeliverBlock?
    ensures Single(p, Exec(p, s, step))
  {
    var me, d, t := step.me, step.db, Exec(p, s, step);
    BlockShape(p, s, step);
    assert MessageOk(s, Commited(me, d)) && SoundMessage(s.stored, Commited(me, d));
    var mid := s.(nodes := t.nodes);
    QuietKeepsSingle(p, s, mid);
    assert EventOk(mid, StoreEvent(me, Effective(d)));
    assert MessageOk(mid, Reply(d.primaryPeerId, LogOf(me, d)));
    AddFacts(p, mid, t);
  }

  /** New sound messages and store events change nothing else. */
  lemma AddFacts(p: Params, s: Sys, t: Sys)
    requires Single(p, s)
    requires t.nodes == s.nodes && t.commits == s.commits && t.proposed == s.proposed && t.delivered == s.delivered
    requires forall e | e in t.stored :: EventOk(s, e)
    requires forall m | m in t.net :: MessageOk(s, m)
    ensures Single(p, t)
  {
    forall key | key in s.proposed ensures Heard(t, key) == Heard(s, key) {
    }
    forall me, k | me in t.nodes && k in t.nodes[me].cache ensures EntryOk(t, me, t.nodes[me].cache[k]) {
      assert EntryOk(s, me, s.nodes[me].cache[k]);
    }
    forall m | m in t.net ensures MessageOk(t, m) {
      assert MessageOk(s, m);
    }
    forall e | e in t.stored ensures EventOk(t, e) {
      assert EventOk(s, e);
    }
    forall key | key in t.proposed ensures RepliesCached(t, key) && QuorumOk(p, t, key) {
      assert RepliesCached(s, key) && QuorumOk(p, s, key);
    }
  }

  // ----- delivering a reply -----

  /** What the handler decides on a reply that counts, in terms of the replies heard so far. */
  lemma DecisionIs(p: Params, s: Sys, me: string, log: ConsensusLog)
    requires Inv(p, s) && Single(p, s) && me in s.nodes && Reply(me, log) in s.net && Counts(me, log)
    ensures LogSlice(log.id) in s.proposed
    ensures var key, cache := LogSlice(log.id), s.nodes[me].cache;
            var heard := set q | q in Peers(s.proposed[key]) && ((key, q) in s.delivered || q == log.id.peerId);
            DecideReply(p.cfg, true, cache, me, log) ==
            if !Pending(s, key) then Answer(cache, Nothing)
            else
              var cache1 := cache[LogKey(log.id) := LogEntry(log)];
              if |heard| < p.cfg.minPeers then Answer(cache1, Nothing)
              else CommitNow(cache1 - {DataKey(key.blockId, key.sliceNumber)} -
                               (set q | q in heard :: LogKey(ReplyId(s.proposed[key], q))),
                             Effective(s.proposed[key]))
    ensures Pending(s, LogSlice(log.id)) ==>
              log == LogOf(log.id.peerId, s.proposed[LogSlice(log.id)]) && log.id.peerId in Peers(s.proposed[LogSlice(log.id)])
  {
    var key, cache, q0 := LogSlice(log.id), s.nodes[me].cache, log.id.peerId;
    assert MessageOk(s, Reply(me, log)) && SoundMessage(s.stored, Reply(me, log));
    if Pending(s, key) {
      var d := s.proposed[key];
      var heard := set q | q in Peers(d) && ((key, q) in s.delivered || q == q0);
      PendingCache(p, s, me, log);
      PendingDecision(p.cfg, cache, me, log, d, heard);
    }
  }

  /** The cache entries a pending reply meets. */
  lemma PendingCache(p: Params, s: Sys, me: string, log: ConsensusLog)
    requires Inv(p, s) && Single(p, s) && me in s.nodes && Reply(me, log) in s.net && Counts(me, log)
    requires LogSlice(log.id) in s.proposed && Pending(s, LogSlice(log.id))
    requires log == LogOf(log.id.peerId, s.proposed[LogSlice(log.id)])
    ensures var key, cache := LogSlice(log.id), s.nodes[me].cache;
            var d := s.proposed[key];
            && cache[DataKey(key.blockId, key.sliceNumber)] == BlockEntry(d)
            && (LogKey(log.id) in cache ==> cache[LogKey(log.id)] == LogEntry(log))
            && (forall q | q in Peers(d) :: LogKey(ReplyId(d, q)) in cache ==> cache[LogKey(ReplyId(d, q))].LogEntry?)
            && (forall q | q in Peers(d) :: LogKey(ReplyId(d, q)) in cache <==> (key, q) in s.delivered)
            && (forall q | q in Peers(d) :: LogKey(ReplyId(d, q)) == LogKey(log.id) ==> q == log.id.peerId)
  {
    var key, cache := LogSlice(log.id), s.nodes[me].cache;
    var d := s.proposed[key];
    assert SoundMessage(s.stored, Reply(me, log));
    BlockProposed(p, s, me, key.blockId, key.sliceNumber);
    if LogKey(log.id) in cache {
      LogProposed(p, s, me, log.id);
    }
    assert RepliesCached(s, key);
    forall q | q in Peers(d)
      ensures LogKey(ReplyId(d, q)) in cache ==> cache[LogKey(ReplyId(d, q))].LogEntry?
      ensures LogKey(ReplyId(d, q)) == LogKey(log.id) ==> q == log.id.peerId
    {
      PendingPeer(p, s, me, log.id, d, q);
    }
  }

  lemma PendingPeer(p: Params, s: Sys, me: string, id: LogId, d: DataBlock, q: string)
    requires Inv(p, s) && Single(p, s) && me in s.nodes && SoundBlock(d) && q in Peers(d)
    requires id.status == CONSENSUS_REPLY && ColonFree(id.primaryPeerId) && ColonFree(id.peerId)
    ensures LogKey(ReplyId(d, q)) in s.nodes[me].cache ==> s.nodes[me].cache[LogKey(ReplyId(d, q))].LogEntry?
    ensures LogKey(ReplyId(d, q)) == LogKey(id) ==> q == id.peerId
  {
    if LogKey(ReplyId(d, q)) == LogKey(id) {
      LogKeyInjective(ReplyId(d, q), id);
    }
    if LogKey(ReplyId(d, q)) in s.nodes[me].cache {
      LogProposed(p, s, me, ReplyId(d, q));
    }
  }

  lemma PendingDecision(cfg: Config, cache: Cache, me: string, log: ConsensusLog, d: DataBlock, heard: set<string>)
    requires Counts(me, log) && GoodList(Peers(d)) && heard <= (set q | q in Peers(d))
    requires log == LogOf(log.id.peerId, d) && log.id.peerId in Peers(d)
    requires DataKey(d.blockId, d.sliceNumber) in cache && cache[DataKey(d.blockId, d.sliceNumber)] == BlockEntry(d)
    requires LogKey(log.id) in cache ==> cache[LogKey(log.id)] == LogEntry(log)
    requires forall q | q in Peers(d) :: LogKey(ReplyId(d, q)) in cache ==> cache[LogKey(ReplyId(d, q))].LogEntry?
    requires forall q | q in Peers(d) :: q in heard <==> LogKey(ReplyId(d, q)) in cache || q == log.id.peerId
    requires forall q | q in Peers(d) :: LogKey(ReplyId(d, q)) == LogKey(log.id) ==> q == log.id.peerId
    ensures var cache1 := cache[LogKey(log.id) := LogEntry(log)];
            DecideReply(cfg, true, cache, me, log) ==
            if |heard| < cfg.minPeers then Answer(cache1, Nothing)
            else CommitNow(cache1 - {DataKey(d.blockId, d.sliceNumber)} - (set q | q in heard :: LogKey(ReplyId(d, q))),
                           Effective(d))
  {
    var cache1 := cache[LogKey(log.id) := LogEntry(log)];
    assert LogKey(log.id) in cache ==> cache == cache1;
    forall q | q in Peers(d)
      ensures log.id.(peerId := q, status := CONSENSUS_REPLY) == ReplyId(d, q)
      ensures LogKey(ReplyId(d, q)) in cache1 <==> q in heard
      ensures LogKey(ReplyId(d, q)) in cache1 ==> cache1[LogKey(ReplyId(d, q))].LogEntry?
    {
    }
    CountHeard(cache1, log.id, d, heard);
  }

  /** The counting loop counts the replies heard, meets no entry of the wrong kind, and names their keys. */
  lemma CountHeard(cache: Cache, request: LogId, d: DataBlock, heard: set<string>)
    requires GoodList(Peers(d)) && heard <= (set q | q in Peers(d))
    requires forall q | q in Peers(d) ::
               && request.(peerId := q, status := CONSENSUS_REPLY) == ReplyId(d, q)
               && (LogKey(ReplyId(d, q)) in cache <==> q in heard)
               && (LogKey(ReplyId(d, q)) in cache ==> cache[LogKey(ReplyId(d, q))].LogEntry?)
    ensures |Repliers(cache, request, Peers(d))| == |heard|
    ensures !Mistyped(cache, ReplyKeys(request, Peers(d)))
    ensures ReplyKeys(request, Repliers(cache, request, Peers(d))) == set q | q in heard :: LogKey(ReplyId(d, q))
  {
    var replied := Repliers(cache, request, Peers(d));
    RepliersAre(cache, request, Peers(d));
    assert (set q | q in replied) == heard;
    forall k | k in ReplyKeys(request, Peers(d)) ensures !(k in cache && cache[k].BlockEntry?) {
      var i :| 0 <= i < |Peers(d)| && k == LogKey(request.(peerId := Peers(d)[i], status := CONSENSUS_REPLY));
      assert Peers(d)[i] in Peers(d);
    }
    forall q | q in heard ensures LogKey(ReplyId(d, q)) in ReplyKeys(request, replied) {
      assert q in replied;
      var i :| 0 <= i < |replied| && replied[i] == q;
      assert q in Peers(d);
    }
    forall k | k in ReplyKeys(request, replied) ensures exists q :: q in heard && k == LogKey(ReplyId(d, q)) {
      var i :| 0 <= i < |replied| && k == LogKey(request.(peerId := replied[i], status := CONSENSUS_REPLY));
      assert replied[i] in replied && replied[i] in Peers(d);
    }
  }

  /** `t` is `s` after a reply that counts was delivered: the cache of its primary is now `cache`. */
  ghost predicate Heeds(s: Sys, t: Sys, me: string, log: ConsensusLog, cache: Cache) {
    && me in s.nodes && Counts(me, log) && LogSlice(log.id) in s.proposed
    && t == s.(nodes := t.nodes, net := t.net, commits := t.commits,
               delivered := s.delivered + {(LogSlice(log.id), log.id.peerId)})
    && t.nodes.Keys == s.nodes.Keys && (forall n | n in s.nodes && n != me :: t.nodes[n] == s.nodes[n])
    && t.nodes[me].cache == cache
  }

  function HeardWith(s: Sys, log: ConsensusLog): set<string>
    requires LogSlice(log.id) in s.proposed
  {
    set q | q in Peers(s.proposed[LogSlice(log.id)]) && ((LogSlice(log.id), q) in s.delivered || q == log.id.peerId)
  }

  lemma HeardGrows(s: Sys, t: Sys, me: string, log: ConsensusLog, cache: Cache)
    requires Heeds(s, t, me, log, cache)
    ensures Heard(t, LogSlice(log.id)) == HeardWith(s, log)
    ensures forall key | key in s.proposed && key != LogSlice(log.id) :: Heard(t, key) == Heard(s, key)
    ensures |Heard(s, LogSlice(log.id))| <= |HeardWith(s, log)| <= |Heard(s, LogSlice(log.id))| + 1
  {
    var before, now := Heard(s, LogSlice(log.id)), HeardWith(s, log);
    SmallerSet(before, now);
    SmallerSet(now, before + {log.id.peerId});
  }

  // A reply to a slice that is no longer pending is only heard.

  /** Caches, messages and events stay; only more replies have been heard. */
  ghost predicate OnlyHeard(s: Sys, t: Sys) {
    && t.proposed == s.proposed && t.stored == s.stored && t.net == s.net && t.commits == s.commits
    && s.delivered <= t.delivered && t.nodes.Keys == s.nodes.Keys
    && forall n | n in s.nodes :: t.nodes[n].cache == s.nodes[n].cache
  }

  lemma OnlyHeardPending(s: Sys, t: Sys)
    requires OnlyHeard(s, t)
    ensures forall key: SliceKey | key.primary in s.nodes :: Pending(t, key) == Pending(s, key)
  {
    hide DataKey;
  }

  lemma OnlyHeardCommits(s: Sys, t: Sys)
    requires OnlyHeard(s, t) && CommitsOk(s)
    ensures CommitsOk(t)
  {
    hide Pending;
    OnlyHeardPending(s, t);
  }

  lemma OnlyHeardEntries(s: Sys, t: Sys)
    requires OnlyHeard(s, t)
    ensures CachesOk(s) ==> CachesOk(t)
  {
    OnlyHeardPending(s, t);
    hide Pending;
    if CachesOk(s) {
      forall n, k | n in t.nodes && k in t.nodes[n].cache ensures EntryOk(t, n, t.nodes[n].cache[k]) {
        assert EntryOk(s, n, s.nodes[n].cache[k]);
      }
    }
  }

  lemma OnlyHeardMessages(s: Sys, t: Sys)
    requires OnlyHeard(s, t)
    ensures forall m :: MessageOk(s, m) ==> MessageOk(t, m)
    ensures forall e :: EventOk(s, e) ==> EventOk(t, e)
  {
    OnlyHeardPending(s, t);
    hide Pending;
  }

  lemma LateQuorum(p: Params, s: Sys, t: Sys, me: string, log: ConsensusLog, key: SliceKey)
    requires OnlyHeard(s, t) && me in s.nodes && Heeds(s, t, me, log, s.nodes[me].cache)
    requires !Pending(s, LogSlice(log.id)) && key in s.proposed && key.primary in s.nodes && RepliesCached(s, key) && QuorumOk(p, s, key)
    ensures RepliesCached(t, key) && QuorumOk(p, t, key)
  {
    OnlyHeardPending(s, t);
    HeardGrows(s, t, me, log, s.nodes[me].cache);
    hide Pending;
    hide LogKey;
  }

  lemma LateReply(p: Params, s: Sys, t: Sys, me: string, log: ConsensusLog)
    requires Single(p, s) && me in s.nodes && Heeds(s, t, me, log, s.nodes[me].cache) && !Pending(s, LogSlice(log.id))
    requires t.net == s.net && t.commits == s.commits
    ensures Single(p, t)
  {
    hide Single;
    SingleHas(p, s);
    LateIsHeard(s, t, me, log);
    hide Heeds;
    hide OnlyHeard;
    hide Pending;
    hide MessageOk;
    hide EventOk;
    hide CachesOk;
    hide CommitsOk;
    hide DeliveredOk;
    OnlyHeardCommits(s, t);
    OnlyHeardEntries(s, t);
    OnlyHeardMessages(s, t);
    forall key | key in t.proposed ensures RepliesCached(t, key) && QuorumOk(p, t, key) {
      LateQuorum(p, s, t, me, log, key);
    }
    SingleFrom(p, t);
  }

  lemma LateIsHeard(s: Sys, t: Sys, me: string, log: ConsensusLog)
    requires me in s.nodes && Heeds(s, t, me, log, s.nodes[me].cache) && t.net == s.net && t.commits == s.commits
    requires DeliveredOk(s)
    ensures OnlyHeard(s, t) && DeliveredOk(t)
    ensures t.proposed == s.proposed && t.nodes.Keys == s.nodes.Keys && t.net == s.net && t.stored == s.stored
  {
  }

  // A reply to a pending slice is cached.

  /** The caches agree on every key that is not of the slice. */
  ghost predicate SameElsewhere(s: Sys, cache: Cache, me: string, log: ConsensusLog)
    requires me in s.nodes && LogSlice(log.id) in s.proposed
  {
    forall k | k in cache || k in s.nodes[me].cache ::
      (k in cache && k in s.nodes[me].cache && cache[k] == s.nodes[me].cache[k]) || OfSlice(s, k, log)
  }

  lemma OtherKeysKept(p: Params, s: Sys, t: Sys, me: string, log: ConsensusLog, cache: Cache, other: SliceKey)
    requires Inv(p, s) && Single(p, s) && Heeds(s, t, me, log, cache) && SameElsewhere(s, cache, me, log)
    requires other in s.proposed && other != LogSlice(log.id)
    requires GoodPeer(log.id.primaryPeerId) && ColonFree(log.id.peerId) && log.id.status == CONSENSUS_REPLY
    ensures Pending(t, other) == Pending(s, other) && RepliesCached(t, other) && QuorumOk(p, t, other)
  {
    hide Inv;
    hide Single;
    hide OfSlice;
    SingleHas(p, s);
    SingleSound(p, s);
    NotOfSlice(s, log, other);
    OtherPending(s, t, me, log, cache, other);
    OtherReplies(s, t, me, log, cache, other);
    hide Pending;
    HeardGrows(s, t, me, log, cache);
  }

  lemma OtherPending(s: Sys, t: Sys, me: string, log: ConsensusLog, cache: Cache, other: SliceKey)
    requires Heeds(s, t, me, log, cache) && SameElsewhere(s, cache, me, log)
    requires other in s.proposed && other.primary in s.nodes
    requires other.primary == me ==> !OfSlice(s, DataKey(other.blockId, other.sliceNumber), log)
    ensures Pending(t, other) == Pending(s, other)
  {
    hide OfSlice;
    hide DataKey;
  }

  lemma OtherReplies(s: Sys, t: Sys, me: string, log: ConsensusLog, cache: Cache, other: SliceKey)
    requires Heeds(s, t, me, log, cache) && SameElsewhere(s, cache, me, log)
    requires other in s.proposed && other.primary in s.nodes && other != LogSlice(log.id)
    requires Pending(t, other) == Pending(s, other) && RepliesCached(s, other)
    requires forall q | q in Peers(s.proposed[other]) :: !OfSlice(s, LogKey(ReplyId(s.proposed[other], q)), log)
    ensures RepliesCached(t, other)
  {
    hide OfSlice;
    hide LogKey;
    hide Pending;
  }

  lemma SingleSound(p: Params, s: Sys)
    requires Single(p, s)
    ensures forall key | key in s.proposed ::
              var d := s.proposed[key]; KeyOf(d.primaryPeerId, d) == key && SoundBlock(d)
  {
  }

  /** A key that belongs to the slice of `log`: its block key or a reply key of one of its listed peers. */
  ghost predicate OfSlice(s: Sys, k: string, log: ConsensusLog)
    requires LogSlice(log.id) in s.proposed
  {
    var key := LogSlice(log.id);
    k == DataKey(key.blockId, key.sliceNumber) || k == LogKey(log.id) ||
    exists q :: q in Peers(s.proposed[key]) && k == LogKey(ReplyId(s.proposed[key], q))
  }

  lemma NotOfSlice(s: Sys, log: ConsensusLog, other: SliceKey)
    requires LogSlice(log.id) in s.proposed && other in s.proposed && other != LogSlice(log.id)
    requires GoodPeer(log.id.primaryPeerId) && ColonFree(log.id.peerId) && log.id.status == CONSENSUS_REPLY
    requires forall key | key in s.proposed ::
               var d := s.proposed[key]; KeyOf(d.primaryPeerId, d) == key && SoundBlock(d)
    ensures other.primary == log.id.primaryPeerId ==> !OfSlice(s, DataKey(other.blockId, other.sliceNumber), log)
    ensures forall q | q in Peers(s.proposed[other]) :: !OfSlice(s, LogKey(ReplyId(s.proposed[other], q)), log)
  {
    var key, d := LogSlice(log.id), s.proposed[LogSlice(log.id)];
    var dk := DataKey(other.blockId, other.sliceNumber);
    if other.primary == log.id.primaryPeerId {
      if dk == DataKey(key.blockId, key.sliceNumber) {
        DataKeyInjective(other.blockId, other.sliceNumber, key.blockId, key.sliceNumber);
      }
      DataKeyIsNotLogKey(other.blockId, other.sliceNumber, log.id);
      forall q | q in Peers(d) ensures dk != LogKey(ReplyId(d, q)) {
        DataKeyIsNotLogKey(other.blockId, other.sliceNumber, ReplyId(d, q));
      }
    }
    forall r | r in Peers(s.proposed[other])
      ensures !OfSlice(s, LogKey(ReplyId(s.proposed[other], r)), log)
    {
      ReplyKeyApart(s.proposed[other], r, key, d, log);
    }
  }

  lemma ReplyKeyApart(o: DataBlock, r: string, key: SliceKey, d: DataBlock, log: ConsensusLog)
    requires SoundBlock(o) && SoundBlock(d) && r in Peers(o) && KeyOf(d.primaryPeerId, d) == key == LogSlice(log.id)
    requires KeyOf(o.primaryPeerId, o) != key
    requires GoodPeer(log.id.primaryPeerId) && ColonFree(log.id.peerId) && log.id.status == CONSENSUS_REPLY
    ensures LogKey(ReplyId(o, r)) != DataKey(key.blockId, key.sliceNumber)
    ensures LogKey(ReplyId(o, r)) != LogKey(log.id)
    ensures forall q | q in Peers(d) :: LogKey(ReplyId(o, r)) != LogKey(ReplyId(d, q))
  {
    DataKeyIsNotLogKey(key.blockId, key.sliceNumber, ReplyId(o, r));
    if LogKey(ReplyId(o, r)) == LogKey(log.id) {
      LogKeyInjective(ReplyId(o, r), log.id);
    }
    forall q | q in Peers(d) ensures LogKey(ReplyId(o, r)) != LogKey(ReplyId(d, q)) {
      if LogKey(ReplyId(o, r)) == LogKey(ReplyId(d, q)) {
        LogKeyInjective(ReplyId(o, r), ReplyId(d, q));
      }
    }
  }

  /** What is known when a pending slice receives the reply of a listed peer. */
  ghost predicate PendingReply(p: Params, s: Sys, me: string, log: ConsensusLog) {
    && Inv(p, s) && Single(p, s) && me in s.nodes && Reply(me, log) in s.net && Counts(me, log)
    && LogSlice(log.id) in s.proposed && Pending(s, LogSlice(log.id))
    && log == LogOf(log.id.peerId, s.proposed[LogSlice(log.id)])
    && log.id.peerId in Peers(s.proposed[LogSlice(log.id)])
  }

  // What carries over from `s` to `t`, fact by fact.

  lemma MessagesKept(s: Sys, t: Sys)
    requires t.proposed == s.proposed && t.nodes.Keys == s.nodes.Keys
    requires forall key: SliceKey | key.primary in s.nodes && Pending(t, key) :: Pending(s, key)
    requires forall m | m in s.net :: MessageOk(s, m)
    ensures forall m | m in s.net :: MessageOk(t, m)
  {
    forall m | m in s.net ensures MessageOk(t, m) {
      assert MessageOk(s, m);
    }
  }

  lemma EventsKept(s: Sys, t: Sys)
    requires t.proposed == s.proposed && t.stored == s.stored
    requires forall e | e in s.stored :: EventOk(s, e)
    ensures forall e | e in t.stored :: EventOk(t, e)
  {
    forall e | e in t.stored ensures EventOk(t, e) {
      assert EventOk(s, e);
    }
  }

  lemma EntryKept(s: Sys, t: Sys, me: string, entry: CacheEntry)
    requires EntryOk(s, me, entry) && t.proposed == s.proposed && s.delivered <= t.delivered
    requires entry.LogEntry? ==> me in t.nodes && Pending(t, LogSlice(entry.log.id))
    ensures EntryOk(t, me, entry)
  {
  }

  /** The slices other than that of the reply, after the cache changed only under keys of that slice. */
  ghost predicate OthersKept(p: Params, s: Sys, t: Sys, key: SliceKey) {
    && t.nodes.Keys == s.nodes.Keys && t.proposed == s.proposed
    && forall other | other in s.proposed && other.primary in s.nodes && other != key ::
         Pending(t, other) == Pending(s, other) && RepliesCached(t, other) && QuorumOk(p, t, other)
  }

  lemma OthersAreKept(p: Params, s: Sys, t: Sys, me: string, log: ConsensusLog, cache: Cache)
    requires PendingReply(p, s, me, log) && Heeds(s, t, me, log, cache)
    requires SameElsewhere(s, cache, me, log)
    ensures OthersKept(p, s, t, LogSlice(log.id))
  {
    assert SoundMessage(s.stored, Reply(me, log));
    forall other | other in s.proposed && other != LogSlice(log.id)
      ensures Pending(t, other) == Pending(s, other) && RepliesCached(t, other) && QuorumOk(p, t, other)
    {
      OtherKeysKept(p, s, t, me, log, cache, other);
    }
  }

  lemma CachedReplyOwn(p: Params, s: Sys, t: Sys, me: string, log: ConsensusLog)
    requires PendingReply(p, s, me, log)
    requires Heeds(s, t, me, log, s.nodes[me].cache[LogKey(log.id) := LogEntry(log)])
    requires |HeardWith(s, log)| < p.cfg.minPeers
    ensures var key := LogSlice(log.id); Pending(t, key) && RepliesCached(t, key) && QuorumOk(p, t, key)
  {
    HeardGrows(s, t, me, log, t.nodes[me].cache);
    PendingCache(p, s, me, log);
  }

  lemma CachedReplyEntries(p: Params, s: Sys, t: Sys, me: string, log: ConsensusLog)
    requires PendingReply(p, s, me, log)
    requires Heeds(s, t, me, log, s.nodes[me].cache[LogKey(log.id) := LogEntry(log)])
    requires OthersKept(p, s, t, LogSlice(log.id)) && Pending(t, LogSlice(log.id))
    ensures CachesOk(t)
  {
    forall n, k | n in t.nodes && k in t.nodes[n].cache ensures EntryOk(t, n, t.nodes[n].cache[k]) {
      if n != me || k != LogKey(log.id) {
        assert EntryOk(s, n, s.nodes[n].cache[k]);
        EntryKept(s, t, n, s.nodes[n].cache[k]);
      }
    }
  }

  lemma CommitsKept(p: Params, s: Sys, t: Sys, key: SliceKey)
    requires ProposalsOk(p, s) && CommitsOk(s) && OthersKept(p, s, t, key) && t.commits == s.commits
    requires key in s.proposed && Pending(s, key) && Pending(t, key)
    ensures CommitsOk(t)
  {
  }

  /** What a heeded reply leaves as it was, and what that says of the invariant's parts. */
  lemma HeededFrame(p: Params, s: Sys, t: Sys, me: string, log: ConsensusLog, cache: Cache)
    requires PendingReply(p, s, me, log) && Heeds(s, t, me, log, cache)
    ensures t.proposed == s.proposed && t.nodes.Keys == s.nodes.Keys && t.stored == s.stored
    ensures ProposalsOk(p, s) && CommitsOk(s) && LogSlice(log.id) in s.proposed && Pending(s, LogSlice(log.id))
    ensures ProposalsOk(p, t) && DeliveredOk(t)
    ensures forall m | m in s.net :: MessageOk(s, m)
    ensures forall e | e in s.stored :: EventOk(s, e)
  {
    hide Inv;
    hide Pending;
    hide MessageOk;
    hide EventOk;
  }

  lemma IntoSingle(p: Params, s: Sys, t: Sys, key: SliceKey)
    requires ProposalsOk(p, t) && DeliveredOk(t) && CommitsOk(t) && CachesOk(t)
    requires forall e | e in t.stored :: EventOk(t, e)
    requires forall m | m in t.net :: MessageOk(t, m)
    requires ProposalsOk(p, s) && OthersKept(p, s, t, key) && key in s.proposed
    requires RepliesCached(t, key) && QuorumOk(p, t, key)
    ensures Single(p, t)
  {
    hide RepliesCached;
    hide QuorumOk;
    hide MessageOk;
    hide EventOk;
    hide CachesOk;
    hide CommitsOk;
    hide DeliveredOk;
    SingleFrom(p, t);
  }

  lemma CachedReply(p: Params, s: Sys, t: Sys, me: string, log: ConsensusLog)
    requires PendingReply(p, s, me, log)
    requires Heeds(s, t, me, log, s.nodes[me].cache[LogKey(log.id) := LogEntry(log)])
    requires t.net == s.net && t.commits == s.commits && |HeardWith(s, log)| < p.cfg.minPeers
    ensures Single(p, t)
  {
    var cache1 := s.nodes[me].cache[LogKey(log.id) := LogEntry(log)];
    HeededFrame(p, s, t, me, log, cache1);
    CachedReplyOwn(p, s, t, me, log);
    OthersAreKept(p, s, t, me, log, cache1);
    CachedReplyEntries(p, s, t, me, log);
    PendingShrinks(p, s, t, me, log, cache1);
    hide Single;
    hide Inv;
    hide Heeds;
    hide MessageOk;
    hide EventOk;
    hide CommitsOk;
    hide CachesOk;
    hide DeliveredOk;
    hide OthersKept;
    MessagesKept(s, t);
    EventsKept(s, t);
    CommitsKept(p, s, t, LogSlice(log.id));
    IntoSingle(p, s, t, LogSlice(log.id));
  }

  /** A reply never makes a slice pending. */
  lemma PendingShrinks(p: Params, s: Sys, t: Sys, me: string, log: ConsensusLog, cache: Cache)
    requires PendingReply(p, s, me, log) && Heeds(s, t, me, log, cache)
    requires forall k | k in cache :: k in s.nodes[me].cache || k == LogKey(log.id)
    ensures forall key: SliceKey | key.primary in s.nodes && Pending(t, key) :: Pending(s, key)
  {
    hide DataKey;
    hide LogKey;
    hide Inv;
    hide Single;
    forall key: SliceKey | key.primary in s.nodes && Pending(t, key) ensures Pending(s, key) {
      DataKeyIsNotLogKey(key.blockId, key.sliceNumber, log.id);
    }
  }

  // The reply that completes the quorum commits.

  function CacheAfterCommit(s: Sys, me: string, log: ConsensusLog): Cache
    requires me in s.nodes && LogSlice(log.id) in s.proposed
  {
    var key := LogSlice(log.id);
    s.nodes[me].cache[LogKey(log.id) := LogEntry(log)] - {DataKey(key.blockId, key.sliceNumber)} -
    (set q | q in HeardWith(s, log) :: LogKey(ReplyId(s.proposed[key], q)))
  }

  /** Nothing of the slice is left in the cache. */
  lemma CommitLeavesNothing(p: Params, s: Sys, me: string, log: ConsensusLog, k: string)
    requires PendingReply(p, s, me, log) && k in CacheAfterCommit(s, me, log)
    ensures k in s.nodes[me].cache && CacheAfterCommit(s, me, log)[k] == s.nodes[me].cache[k]
    ensures var e := s.nodes[me].cache[k];
            e.LogEntry? ==> LogSlice(e.log.id) != LogSlice(log.id)
  {
    var key, cache := LogSlice(log.id), s.nodes[me].cache;
    var d, heard := s.proposed[key], HeardWith(s, log);
    assert LogKey(log.id) == LogKey(ReplyId(d, log.id.peerId)) && log.id.peerId in heard;
    assert k in cache && EntryOk(s, me, cache[k]) && SoundEntry(s.stored, me, k, cache[k]);
    if cache[k].LogEntry? {
      var q := cache[k].log.id.peerId;
      assert LogSlice(cache[k].log.id) == key ==> k == LogKey(ReplyId(d, q)) && q in heard;
    }
  }

  lemma CommitEntries(p: Params, s: Sys, t: Sys, me: string, log: ConsensusLog)
    requires PendingReply(p, s, me, log) && Heeds(s, t, me, log, CacheAfterCommit(s, me, log))
    requires OthersKept(p, s, t, LogSlice(log.id))
    ensures CachesOk(t)
  {
    forall n, k | n in t.nodes && k in t.nodes[n].cache ensures EntryOk(t, n, t.nodes[n].cache[k]) {
      if n == me {
        CommitLeavesNothing(p, s, me, log, k);
        assert EntryOk(s, me, s.nodes[me].cache[k]);
        EntryKept(s, t, me, s.nodes[me].cache[k]);
      } else {
        assert EntryOk(s, n, s.nodes[n].cache[k]);
        EntryKept(s, t, n, s.nodes[n].cache[k]);
      }
    }
  }

  lemma CommitOthers(p: Params, s: Sys, t: Sys, me: string, log: ConsensusLog)
    requires PendingReply(p, s, me, log) && Heeds(s, t, me, log, CacheAfterCommit(s, me, log))
    ensures OthersKept(p, s, t, LogSlice(log.id))
    ensures forall key: SliceKey | key.primary in s.nodes && Pending(t, key) :: Pending(s, key)
  {
    hide Heeds;
    hide OthersKept;
    hide Pending;
    hide Inv;
    hide Single;
    var cache1 := CacheAfterCommit(s, me, log);
    CommitKeepsOthers(p, s, me, log);
    OthersAreKept(p, s, t, me, log, cache1);
    PendingShrinks(p, s, t, me, log, cache1);
  }

  lemma CommitKeepsOthers(p: Params, s: Sys, me: string, log: ConsensusLog)
    requires PendingReply(p, s, me, log)
    ensures var cache1 := CacheAfterCommit(s, me, log);
            && SameElsewhere(s, cache1, me, log)
            && forall k | k in cache1 :: k in s.nodes[me].cache || k == LogKey(log.id)
  {
    hide Inv;
    hide Single;
    hide LogKey;
    hide DataKey;
    var cache1 := CacheAfterCommit(s, me, log);
    forall k | k in cache1 || k in s.nodes[me].cache
      ensures (k in cache1 && k in s.nodes[me].cache && cache1[k] == s.nodes[me].cache[k]) || OfSlice(s, k, log)
    {
      if k in cache1 {
        CommitLeavesNothing(p, s, me, log, k);
      }
    }
  }

  lemma CommitOwn(p: Params, s: Sys, t: Sys, me: string, log: ConsensusLog)
    requires PendingReply(p, s, me, log) && Heeds(s, t, me, log, CacheAfterCommit(s, me, log))
    requires |HeardWith(s, log)| >= p.cfg.minPeers
    ensures var key := LogSlice(log.id); !Pending(t, key) && RepliesCached(t, key) && QuorumOk(p, t, key)
  {
    HeardGrows(s, t, me, log, t.nodes[me].cache);
  }

  lemma CommitAppended(p: Params, s: Sys, t: Sys, key: SliceKey)
    requires ProposalsOk(p, s) && CommitsOk(s) && OthersKept(p, s, t, key)
    requires key in s.proposed && Pending(s, key) && !Pending(t, key)
    requires t.commits == s.commits + [Commit(key.primary, Effective(s.proposed[key]))]
    ensures CommitsOk(t)
  {
    hide RepliesCached;
    hide QuorumOk;
    hide DataKey;
    var last := |s.commits|;
    assert CommitKey(t.commits[last]) == key;
    forall i | 0 <= i < last ensures t.commits[i] == s.commits[i] && CommitKey(t.commits[i]) != key {
    }
    forall other | other in s.proposed && other.primary in s.nodes && !Pending(t, other)
      ensures exists i :: 0 <= i < |t.commits| && CommitKey(t.commits[i]) == other
    {
      if other != key {
        var i :| 0 <= i < |s.commits| && CommitKey(s.commits[i]) == other;
        assert CommitKey(t.commits[i]) == other;
      }
    }
  }

  lemma CommitReply(p: Params, s: Sys, t: Sys, me: string, log: ConsensusLog)
    requires PendingReply(p, s, me, log) && Heeds(s, t, me, log, CacheAfterCommit(s, me, log))
    requires |HeardWith(s, log)| >= p.cfg.minPeers
    requires t.commits == s.commits + [Commit(me, Effective(s.proposed[LogSlice(log.id)]))]
    requires forall m | m in t.net && m !in s.net ::
               && m.Reply? && (m.log.id.peerId == "" || m.log.id.peerId == me)
               && m.log.id == log.id.(peerId := m.log.id.peerId, status := CONSENSUS_REPLY)
    ensures Single(p, t)
  {
    hide Single;
    hide Inv;
    hide MessageOk;
    hide EventOk;
    hide CommitsOk;
    hide CachesOk;
    hide DeliveredOk;
    hide OthersKept;
    var cache1 := CacheAfterCommit(s, me, log);
    HeededFrame(p, s, t, me, log, cache1);
    CommitOwn(p, s, t, me, log);
    CommitOthers(p, s, t, me, log);
    CommitEntries(p, s, t, me, log);
    CommitPrimary(p, s, me, log);
    hide Heeds;
    hide PendingReply;
    CommitAppended(p, s, t, LogSlice(log.id));
    CommitMessages(s, t, me, log);
    EventsKept(s, t);
    IntoSingle(p, s, t, LogSlice(log.id));
  }

  lemma CommitMessages(s: Sys, t: Sys, me: string, log: ConsensusLog)
    requires t.proposed == s.proposed && t.nodes.Keys == s.nodes.Keys
    requires forall key: SliceKey | key.primary in s.nodes && Pending(t, key) :: Pending(s, key)
    requires forall m | m in s.net :: MessageOk(s, m)
    requires LogSlice(log.id) in s.proposed && LogSlice(log.id).primary == me && me in t.nodes
    requires !Pending(t, LogSlice(log.id))
    requires forall m | m in t.net && m !in s.net ::
               && m.Reply? && (m.log.id.peerId == "" || m.log.id.peerId == me)
               && m.log.id == log.id.(peerId := m.log.id.peerId, status := CONSENSUS_REPLY)
    ensures forall m | m in t.net :: MessageOk(t, m)
  {
    hide Pending;
    MessagesKept(s, t);
    forall m | m in t.net ensures MessageOk(t, m) {
      if m !in s.net {
        assert LogSlice(m.log.id) == LogSlice(log.id);
      }
    }
  }

  lemma CommitPrimary(p: Params, s: Sys, me: string, log: ConsensusLog)
    requires PendingReply(p, s, me, log)
    ensures LogSlice(log.id).primary == me && me in s.nodes
  {
  }

  lemma PendingReplyHolds(p: Params, s: Sys, me: string, log: ConsensusLog)
    requires Inv(p, s) && Single(p, s) && me in s.nodes && Reply(me, log) in s.net && Counts(me, log)
    requires LogSlice(log.id) in s.proposed && Pending(s, LogSlice(log.id))
    ensures PendingReply(p, s, me, log)
  {
    assert MessageOk(s, Reply(me, log));
  }

  /** A reply step: either the reply counts and is heeded, or the caches and the network stay as they are. */
  ghost predicate ReplyMoved(p: Params, s: Sys, t: Sys, me: string, log: ConsensusLog) {
    && me in s.nodes
    && var d := DecideReply(p.cfg, true, s.nodes[me].cache, me, log);
       if Counts(me, log) then
         && (LogSlice(log.id) in s.proposed ==> Heeds(s, t, me, log, d.cache))
         && t.commits == s.commits + (if d.CommitNow? then [Commit(me, d.block)] else [])
         && (d.Answer? ==> t.net == s.net)
         && (forall m | m in t.net && m !in s.net ::
               && m.Reply? && (m.log.id.peerId == "" || m.log.id.peerId == me)
               && m.log.id == log.id.(peerId := m.log.id.peerId, status := CONSENSUS_REPLY))
       else
         && t == s.(nodes := t.nodes) && t.nodes.Keys == s.nodes.Keys
         && (forall n | n in s.nodes :: t.nodes[n].cache == s.nodes[n].cache)
  }

  lemma ReplyMoves(p: Params, s: Sys, step: Step)
    requires Inv(p, s) && Enabled(p, s, step) && step.DeliverReply?
    ensures ReplyMoved(p, s, Exec(p, s, step), step.me, step.log)
  {
    ReplyStep(p, s, step);
    DecisionCache(p.cfg, s.nodes[step.me].cache, step.me, step.log);
  }

  lemma MovedKeepsSingle(p: Params, s: Sys, t: Sys, me: string, log: ConsensusLog)
    requires Inv(p, s) && Single(p, s) && me in s.nodes && Reply(me, log) in s.net
    requires ReplyMoved(p, s, t, me, log)
    ensures Single(p, t)
  {
    if Counts(me, log) {
      DecisionIs(p, s, me, log);
      if !Pending(s, LogSlice(log.id)) {
        LateReply(p, s, t, me, log);
      } else {
        PendingReplyHolds(p, s, me, log);
        if |HeardWith(s, log)| < p.cfg.minPeers {
          CachedReply(p, s, t, me, log);
        } else {
          CommitReply(p, s, t, me, log);
        }
      }
    } else {
      QuietKeepsSingle(p, s, t);
    }
  }

  lemma ReplyKeepsSingle(p: Params, s: Sys, step: Step, t: Sys)
    requires Inv(p, s) && Single(p, s) && Enabled(p, s, step) && step.DeliverReply? && t == Exec(p, s, step)
    ensures Single(p, t)
  {
    ReplyMoves(p, s, step);
    MovedKeepsSingle(p, s, t, step.me, step.log);
  }

  lemma StepKeepsSingle(p: Params, s: Sys, step: Step)
    requires Inv(p, s) && Single(p, s) && Enabled(p, s, step) && FreshProposal(p, s, step)
    ensures Single(p, Exec(p, s, step))
  {
    match step
    case Propose(_, _, _, _) => ProposeKeepsSingle(p, s, step);
    case DeliverBlock(_, _) => BlockKeepsSingle(p, s, step);
    case DeliverReply(_, _) => ReplyKeepsSingle(p, s, step, Exec(p, s, step));
  }

  lemma {:induction false} SingleOverRuns(p: Params, steps: seq<Step>, states: seq<Sys>, k: nat)
    requires SingleRun(p, steps, states) && k <= |steps|
    ensures Inv(p, states[k]) && Single(p, states[k])
  {
    hide Inv;
    hide Single;
    hide Exec;
    hide Moves;
    hide Enabled;
    InvOverRuns(p, steps, states, k);
    if k == 0 {
      InitSingle(p, states[0]);
    } else {
      SingleOverRuns(p, steps, states, k - 1);
      RunStep(p, steps, states, k - 1);
      StepKeepsSingle(p, states[k - 1], steps[k - 1]);
    }
  }

  lemma RunStep(p: Params, steps: seq<Step>, states: seq<Sys>, k: nat)
    requires SingleRun(p, steps, states) && k < |steps|
    ensures Enabled(p, states[k], steps[k]) && FreshProposal(p, states[k], steps[k])
    ensures states[k + 1] == Exec(p, states[k], steps[k])
  {
    assert Moves(p, states[k], steps[k], states[k + 1]);
  }

  lemma InitSingle(p: Params, s: Sys)
    requires Init(s)
    ensures Single(p, s)
  {
  }

  // ----- the results -----

  /** The peers whose reply to a slice is in its primary's cache. */
  function CachedRepliers(s: Sys, key: SliceKey): set<string>
    requires key.primary in s.nodes
  {
    var cache := s.nodes[key.primary].cache;
    set k | k in cache && cache[k].LogEntry? && LogSlice(cache[k].log.id) == key :: cache[k].log.id.peerId
  }

  /** In every reachable system: a slice is pending exactly while fewer than the required number of listed peers have
      been heard; while it is pending the cached replies are those heard; once it is not, none is cached and it has
      been committed exactly once, as it was proposed. */
  lemma PendingUntilQuorum(p: Params, steps: seq<Step>, states: seq<Sys>, k: nat, key: SliceKey)
    requires SingleRun(p, steps, states) && k <= |steps| && key in states[k].proposed
    ensures var s := states[k];
            && key.primary in s.nodes
            && (Pending(s, key) <==> |Heard(s, key)| < p.cfg.minPeers)
            && CachedRepliers(s, key) == (if Pending(s, key) then Heard(s, key) else {})
            && ((exists i :: 0 <= i < |s.commits| && CommitKey(s.commits[i]) == key) <==> !Pending(s, key))
            && (forall i | 0 <= i < |s.commits| && CommitKey(s.commits[i]) == key ::
                  s.commits[i].block == Effective(s.proposed[key]))
            && (forall i, j | 0 <= i < j < |s.commits| :: CommitKey(s.commits[i]) != CommitKey(s.commits[j]))
  {
    hide Inv;
    hide Single;
    hide CachedRepliers;
    hide Heard;
    hide Pending;
    SingleOverRuns(p, steps, states, k);
    SingleHas(p, states[k]);
    CachedAreHeard(p, states[k], key);
    assert QuorumOk(p, states[k], key);
  }

  lemma CachedAreHeard(p: Params, s: Sys, key: SliceKey)
    requires Inv(p, s) && Single(p, s) && key in s.proposed && key.primary in s.nodes
    ensures CachedRepliers(s, key) == (if Pending(s, key) then Heard(s, key) else {})
  {
    SingleHas(p, s);
    var cache, d := s.nodes[key.primary].cache, s.proposed[key];
    forall k | k in cache && cache[k].LogEntry? && LogSlice(cache[k].log.id) == key
      ensures Pending(s, key) && cache[k].log.id.peerId in Heard(s, key)
    {
      assert EntryOk(s, key.primary, cache[k]);
    }
    if Pending(s, key) {
      assert RepliesCached(s, key);
      forall q | q in Heard(s, key) ensures q in CachedRepliers(s, key) {
        var k := LogKey(ReplyId(d, q));
        LogProposed(p, s, key.primary, ReplyId(d, q));
        assert k in cache && cache[k].log.id.peerId == q;
      }
    }
  }

  /** The primary commits at a delivery exactly when that delivery brings the listed peers heard from fewer than the
      required number to that number; no other step commits. */
  lemma CommitsExactlyAtQuorum(p: Params, steps: seq<Step>, states: seq<Sys>, k: nat)
    requires SingleRun(p, steps, states) && k < |steps|
    ensures var s, t, step := states[k], states[k + 1], steps[k];
            if step.DeliverReply? && Counts(step.me, step.log) then
              var key := LogSlice(step.log.id);
              && key in s.proposed && key in t.proposed
              && (t.commits != s.commits <==> |Heard(s, key)| < p.cfg.minPeers == |Heard(t, key)|)
              && (t.commits != s.commits ==> t.commits == s.commits + [Commit(step.me, Effective(s.proposed[key]))])
            else t.commits == s.commits
  {
    hide Inv;
    hide Single;
    hide Exec;
    hide Enabled;
    hide Heard;
    SingleOverRuns(p, steps, states, k);
    RunStep(p, steps, states, k);
    var s, step := states[k], steps[k];
    if step.DeliverReply? {
      if Counts(step.me, step.log) {
        CommitsAtReply(p, s, step);
      } else {
        UncountedCommitsNothing(p, s, step);
      }
    } else {
      OthersCommitNothing(p, s, step);
    }
  }

  lemma OthersCommitNothing(p: Params, s: Sys, step: Step)
    requires Enabled(p, s, step) && !step.DeliverReply?
    ensures Exec(p, s, step).commits == s.commits
  {
  }

  lemma UncountedCommitsNothing(p: Params, s: Sys, step: Step)
    requires Inv(p, s) && Enabled(p, s, step) && step.DeliverReply? && !Counts(step.me, step.log)
    ensures Exec(p, s, step).commits == s.commits
  {
    hide Exec;
    hide DecideReply;
    ReplyStep(p, s, step);
    DecisionCache(p.cfg, s.nodes[step.me].cache, step.me, step.log);
  }

  lemma CommitsAtReply(p: Params, s: Sys, step: Step)
    requires Inv(p, s) && Single(p, s) && Enabled(p, s, step) && step.DeliverReply? && Counts(step.me, step.log)
    ensures var t, key := Exec(p, s, step), LogSlice(step.log.id);
            && key in s.proposed && key in t.proposed
            && (t.commits != s.commits <==> |Heard(s, key)| < p.cfg.minPeers == |Heard(t, key)|)
            && (t.commits != s.commits ==> t.commits == s.commits + [Commit(step.me, Effective(s.proposed[key]))])
  {
    hide DecideReply;
    var key, t := LogSlice(step.log.id), Exec(p, s, step);
    ReplyMoves(p, s, step);
    DecisionIs(p, s, step.me, step.log);
    SingleHas(p, s);
    assert QuorumOk(p, s, key);
    hide Inv;
    hide Single;
    hide Exec;
    hide Pending;
    HeardGrows(s, t, step.me, step.log, t.nodes[step.me].cache);
  }

  /** The cache of a primary holds a reply only while it holds the block of the same slice. */
  lemma ReplyNeedsBlock(p: Params, steps: seq<Step>, states: seq<Sys>, k: nat, me: string, key: string)
    requires SingleRun(p, steps, states) && k <= |steps| && me in states[k].nodes && key in states[k].nodes[me].cache
    ensures var cache := states[k].nodes[me].cache;
            cache[key].LogEntry? ==>
              var id := cache[key].log.id;
              DataKey(id.blockId, id.sliceNumber) in cache && cache[DataKey(id.blockId, id.sliceNumber)].BlockEntry?
  {
    SingleOverRuns(p, steps, states, k);
    var s := states[k];
    var cache := s.nodes[me].cache;
    assert EntryOk(s, me, cache[key]);
    if cache[key].LogEntry? {
      BlockAt(s.stored, me, cache, cache[key].log.id.blockId, cache[key].log.id.sliceNumber);
    }
  }

  /** Every commit is backed by distinct listed peers that stored that very version of the slice. */
  lemma CommitsAreBackedByVersion(p: Params, steps: seq<Step>, states: seq<Sys>, k: nat, c: Commit)
    requires SingleRun(p, steps, states) && k <= |steps| && c in states[k].commits
    ensures |set q | q in Peers(c.block) && q != c.primary && StoreEvent(q, c.block) in states[k].stored| >= p.cfg.minPeers
  {
    CommitsAreBacked(p, steps, states, k, c);
    SingleOverRuns(p, steps, states, k);
    var s := states[k];
    var version := set q | q in Peers(c.block) && q != c.primary && StoreEvent(q, c.block) in s.stored;
    var i :| 0 <= i < |s.commits| && s.commits[i] == c;
    assert s.commits[i].block == Effective(s.proposed[CommitKey(c)]);
    forall q | q in Backers(s.stored, c) ensures q in version {
      var e :| e in s.stored && e.peer == q && KeyOf(e.block.primaryPeerId, e.block) == KeyOf(c.primary, c.block);
      assert EventOk(s, e);
    }
    SmallerSet(Backers(s.stored, c), version);
  }
}
