/** Proposing a slice again while replies to an earlier version of it are on their way: they always commit the new
    version, though nobody may hold it. */
module StaleReplies {
  import opened CacheKeys
  import opened BlockModel
  import opened StdConsensus
  import opened ConsensusRuns
  import opened SingleProposal

  // ----- runs and their extensions -----

  /** Systems reached one by one, from anywhere. */
  ghost predicate Path(p: Params, steps: seq<Step>, states: seq<Sys>) {
    && |states| == |steps| + 1
    && forall i | 0 <= i < |steps| :: Moves(p, states[i], steps[i], states[i + 1])
  }

  lemma OneMove(p: Params, s: Sys, step: Step, t: Sys, steps: seq<Step>, states: seq<Sys>)
    requires Moves(p, s, step, t) && Path(p, steps, states) && states[0] == t
    ensures Path(p, [step] + steps, [s] + states)
  {
    hide Moves;
    var all, seen := [step] + steps, [s] + states;
    forall i | 0 <= i < |all| ensures Moves(p, seen[i], all[i], seen[i + 1]) {
      if i > 0 {
        assert Moves(p, states[i - 1], steps[i - 1], states[i - 1 + 1]);
      }
    }
  }

  lemma RunExtends(p: Params, steps: seq<Step>, states: seq<Sys>, more: seq<Step>, later: seq<Sys>)
    requires Run(p, steps, states) && Path(p, more, later) && later[0] == states[|steps|]
    ensures Run(p, steps + more, states + later[1..])
    ensures (states + later[1..])[|steps + more|] == later[|more|]
  {
    hide Moves;
    var all, seen := steps + more, states + later[1..];
    forall i | 0 <= i < |all| ensures Moves(p, seen[i], all[i], seen[i + 1]) {
      if i < |steps| {
        assert Moves(p, states[i], steps[i], states[i + 1]);
      } else {
        assert Moves(p, later[i - |steps|], more[i - |steps|], later[i - |steps| + 1]);
      }
    }
  }

  // ----- one stale reply -----

  /** The primary holds `d`, and every one of `qs` is listed, is not the primary, and has answered `prior`, a version of
      the same slice. */
  ghost predicate Awaits(s: Sys, me: string, d: DataBlock, prior: DataBlock, qs: seq<string>) {
    && me in s.nodes && GoodPeer(me) && KeyOf(prior.primaryPeerId, prior) == KeyOf(me, d)
    && DataKey(d.blockId, d.sliceNumber) in s.nodes[me].cache
    && s.nodes[me].cache[DataKey(d.blockId, d.sliceNumber)] == BlockEntry(d)
    && forall q | q in qs :: q in Peers(d) && q != me && Reply(me, LogOf(q, prior)) in s.net
  }

  /** The primary does not turn the reply away: none is cached in its place that speaks of another payload. */
  predicate SamePayload(cache: Cache, log: ConsensusLog) {
    LogKey(log.id) in cache ==>
      && cache[LogKey(log.id)].LogEntry?
      && (log.payloadHash == "" || cache[LogKey(log.id)].log.payloadHash == log.payloadHash)
  }

  lemma NeverMistyped(stored: set<StoreEvent>, me: string, cache: Cache, request: LogId, ids: seq<string>)
    requires SoundCache(stored, me, cache)
    ensures !Mistyped(cache, ReplyKeys(request, ids))
  {
    hide LogKey;
    hide DataKey;
    forall k | k in ReplyKeys(request, ids) && k in cache ensures cache[k].LogEntry? {
      var i :| 0 <= i < |ids| && k == LogKey(request.(peerId := ids[i], status := CONSENSUS_REPLY));
      assert SoundEntry(stored, me, k, cache[k]);
      if cache[k].BlockEntry? {
        DataKeyIsNotLogKey(cache[k].block.blockId, cache[k].block.sliceNumber,
                           request.(peerId := ids[i], status := CONSENSUS_REPLY));
        assert false;
      }
    }
  }

  /** What the primary decides on such a reply: it caches it, and commits `d` if the cached ones suffice. */
  lemma StaleDecision(p: Params, s: Sys, me: string, d: DataBlock, prior: DataBlock, qs: seq<string>, n: nat)
    requires Inv(p, s) && Awaits(s, me, d, prior, qs) && n < |qs|
    requires SamePayload(s.nodes[me].cache, LogOf(qs[n], prior))
    ensures var log := LogOf(qs[n], prior);
            var cache := s.nodes[me].cache;
            var cache1 := if LogKey(log.id) in cache then cache else cache[LogKey(log.id) := LogEntry(log)];
            var decision := DecideReply(p.cfg, true, cache, me, log);
            if |Repliers(cache1, log.id, Peers(d))| >= p.cfg.minPeers
            then decision.CommitNow? && decision.block == Effective(d)
            else decision == Answer(cache1, Response.Nothing)
  {
    hide LogKey;
    hide DataKey;
    var q := qs[n];
    assert q in qs;
    var log := LogOf(q, prior);
    var cache := s.nodes[me].cache;
    var cache1 := if LogKey(log.id) in cache then cache else cache[LogKey(log.id) := LogEntry(log)];
    assert SoundMessage(s.stored, Reply(me, log));
    forall k | k in cache1 ensures SoundEntry(s.stored, me, k, cache1[k]) {
    }
    NeverMistyped(s.stored, me, cache1, log.id, Peers(d));
  }

  /** The replies of the first `n` peers are cached. */
  ghost predicate CachedSome(s: Sys, me: string, prior: DataBlock, qs: seq<string>, n: nat)
    requires me in s.nodes && n <= |qs|
  {
    forall i | 0 <= i < n :: LogKey(LogOf(qs[i], prior).id) in s.nodes[me].cache
  }

  /** The cached replies of listed peers are among those the primary counts. */
  lemma CountsThem(cache: Cache, d: DataBlock, prior: DataBlock, request: LogId, qs: seq<string>, n: nat)
    requires Distinct(qs) && n <= |qs| && Distinct(Peers(d))
    requires forall i | 0 <= i < n :: qs[i] in Peers(d) && LogKey(LogOf(qs[i], prior).id) in cache
    requires exists q :: request == LogOf(q, prior).id
    ensures |Repliers(cache, request, Peers(d))| >= n
  {
    hide LogKey;
    RepliersAre(cache, request, Peers(d));
    DistinctSize(qs[..n]);
    var replied := Repliers(cache, request, Peers(d));
    forall q | q in qs[..n] ensures q in replied {
      assert LogOf(q, prior).id == request.(peerId := q, status := CONSENSUS_REPLY);
    }
    SmallerSet((set q | q in qs[..n]), (set q | q in replied));
  }

  // ----- one after the other -----

  lemma StillAwaits(s: Sys, t: Sys, me: string, d: DataBlock, prior: DataBlock, qs: seq<string>, log: ConsensusLog)
    requires Awaits(s, me, d, prior, qs) && me in t.nodes && s.net <= t.net
    requires log.payloadHash == prior.payloadHash && log.id.status == CONSENSUS_REPLY
    requires t.nodes[me].cache == s.nodes[me].cache || t.nodes[me].cache == s.nodes[me].cache[LogKey(log.id) := LogEntry(log)]
    ensures Awaits(t, me, d, prior, qs)
    ensures forall q :: SamePayload(s.nodes[me].cache, LogOf(q, prior)) ==> SamePayload(t.nodes[me].cache, LogOf(q, prior))
  {
    DataKeyIsNotLogKey(d.blockId, d.sliceNumber, log.id);
    hide LogKey;
    hide DataKey;
  }

  /** Delivering the stale replies that are not cached yet, and the last one at the end in any case, commits `d` by then. */
  lemma DeliverStale(p: Params, s: Sys, me: string, d: DataBlock, prior: DataBlock, qs: seq<string>, n: nat)
    returns (steps: seq<Step>, states: seq<Sys>)
    requires Inv(p, s) && Awaits(s, me, d, prior, qs) && Distinct(qs) && Distinct(Peers(d)) && n < |qs|
    requires SamePayload(s.nodes[me].cache, LogOf(qs[|qs| - 1], prior))
    requires CachedSome(s, me, prior, qs, n) && |qs| >= p.cfg.minPeers
    ensures Path(p, steps, states) && states[0] == s
    ensures states[|steps|].commits == s.commits + [Commit(me, Effective(d))] && states[|steps|].stored == s.stored
    decreases |qs| - n
  {
    hide LogKey;
    hide DataKey;
    hide Inv;
    hide Exec;
    hide DecideReply;
    hide Repliers;
    var q := qs[n];
    assert q in qs;
    var log := LogOf(q, prior);
    if LogKey(log.id) in s.nodes[me].cache && n + 1 < |qs| {
      steps, states := DeliverStale(p, s, me, d, prior, qs, n + 1);
    } else {
      var step := DeliverReply(me, log);
      var t := Exec(p, s, step);
      StaleDecision(p, s, me, d, prior, qs, n);
      ReplyStep(p, s, step);
      assert Moves(p, s, step, t);
      if DecideReply(p.cfg, true, s.nodes[me].cache, me, log).CommitNow? {
        OneMove(p, s, step, t, [], [t]);
        steps, states := [step] + [], [s] + [t];
      } else {
        StepKeepsInv(p, s, step);
        StillAwaits(s, t, me, d, prior, qs, log);
        assert CachedSome(t, me, prior, qs, n + 1);
        CountsThem(t.nodes[me].cache, d, prior, log.id, qs, n + 1);
        var more, later := DeliverStale(p, t, me, d, prior, qs, n + 1);
        OneMove(p, s, step, t, more, later);
        steps, states := [step] + more, [s] + later;
      }
    }
  }

  /** The same peers with one of them at the end. */
  lemma PutLast(qs: seq<string>, q: string) returns (rest: seq<string>)
    requires Distinct(qs) && q in qs
    ensures Distinct(rest) && |rest| == |qs| && rest[|rest| - 1] == q && forall x :: x in rest <==> x in qs
  {
    var m :| 0 <= m < |qs| && qs[m] == q;
    rest := qs[..m] + qs[m + 1..] + [q];
    forall x | x in qs ensures x in rest {
      var i :| 0 <= i < |qs| && qs[i] == x;
      assert i < m ==> rest[i] == x;
      assert i > m ==> rest[i - 1] == x;
    }
  }

  // ----- the results -----

  /** In every reachable system where enough listed peers have answered some version of a slice, whether the primary has
      heard them or not, proposing any version of the slice that nobody holds can be followed by deliveries that commit
      it while still nobody holds it. One of the answers, `q`, must be one the primary does not turn away. */
  lemma StaleRepliesCommit(p: Params, steps: seq<Step>, states: seq<Sys>, propose: Step, prior: DataBlock, qs: seq<string>,
                           q: string)
    returns (more: seq<Step>, later: seq<Sys>)
    requires Run(p, steps, states) && propose.Propose?
    requires Enabled(p, states[|steps|], propose) && Caches(p, propose)
    requires KeyOf(prior.primaryPeerId, prior) == KeyOf(propose.me, propose.db)
    requires Distinct(qs) && |qs| >= p.cfg.minPeers
    requires forall x | x in qs ::
               x in propose.chosen && x != propose.me && Reply(propose.me, LogOf(x, prior)) in states[|steps|].net
    requires q in qs && SamePayload(states[|steps|].nodes[propose.me].cache, LogOf(q, prior))
    requires var d := Effective(Proposal(propose.me, propose.db, propose.chosen));
             forall x :: StoreEvent(x, d) !in states[|steps|].stored
    ensures Run(p, steps + more, states + later) && more != [] && more[0] == propose
    ensures var d := Effective(Proposal(propose.me, propose.db, propose.chosen));
            var t := (states + later)[|steps + more|];
            Commit(propose.me, d) in t.commits && forall x :: StoreEvent(x, d) !in t.stored
  {
    hide LogKey;
    hide Exec;
    hide Inv;
    var s, me := states[|steps|], propose.me;
    var d := Proposal(me, propose.db, propose.chosen);
    InvOverRuns(p, steps, states, |steps|);
    var t := Exec(p, s, propose);
    ProposeShape(p, s, propose);
    StepKeepsInv(p, s, propose);
    ProposalSound(p.cfg, me, propose.db, propose.nearest, propose.chosen);
    var order := PutLast(qs, q);
    KeptReplies(s, t, me, d, prior, q);
    var rest, seen := DeliverStale(p, t, me, d, prior, order, 0);
    assert Moves(p, s, propose, t);
    OneMove(p, s, propose, t, rest, seen);
    more := [propose] + rest;
    RunExtends(p, steps, states, more, [s] + seen);
    later := ([s] + seen)[1..];
  }

  lemma KeptReplies(s: Sys, t: Sys, me: string, d: DataBlock, prior: DataBlock, q: string)
    requires me in s.nodes && me in t.nodes
    requires t.nodes[me].cache == s.nodes[me].cache[DataKey(d.blockId, d.sliceNumber) := BlockEntry(d)]
    requires SamePayload(s.nodes[me].cache, LogOf(q, prior))
    ensures SamePayload(t.nodes[me].cache, LogOf(q, prior))
  {
    DataKeyIsNotLogKey(d.blockId, d.sliceNumber, LogOf(q, prior).id);
  }

  /** And only a second proposal of a slice can have that effect: a commit with too few holders of its version means
      that some step of the run proposed a slice again. */
  lemma OnlyReproposalUnbacks(p: Params, steps: seq<Step>, states: seq<Sys>, c: Commit)
    requires Run(p, steps, states) && c in states[|steps|].commits
    requires |set q | q in Peers(c.block) && q != c.primary && StoreEvent(q, c.block) in states[|steps|].stored| < p.cfg.minPeers
    ensures exists k :: 0 <= k < |steps| && !FreshProposal(p, states[k], steps[k])
  {
    hide FreshProposal;
    if forall k | 0 <= k < |steps| :: FreshProposal(p, states[k], steps[k]) {
      CommitsAreBackedByVersion(p, steps, states, |steps|, c);
      assert false;
    }
  }
}
