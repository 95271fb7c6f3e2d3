/** Where the replication protocol does less than one would expect, with the run or the input that shows it. */
module ConsensusLimits {
  import opened CacheKeys
  import opened BlockModel
  import opened PeerTransactions
  import opened BlockStore
  import opened StdConsensus
  import opened ConsensusRuns
  import opened StaleReplies

  // ----- the notice after a commit -----

  /** The client is told of a deletion (an empty peer id) exactly when the committed chat block has no payload, or has
      one so large that storing it moved it to a file. */
  lemma DeleteNoticeExactly(cache: Cache, store: Store, env: Env, db: DataBlock, request: LogId, blockType: string)
    requires StoreValue(store, env, db).result.Ok?
    ensures var sends := FinalCommit(cache, store, env, db, request, blockType).sends;
            && |sends| == 1 && sends[0].Reply? && sends[0].to == db.peerId
            && (sends[0].log.id.peerId == "" <==> db.blockType == TYPE_P2P_CHAT && (db.transportPayload == "" || Spills(db)))
  {
  }

  /** So a large chat message that was created is reported as deleted. */
  lemma LargeChatReportedDeleted(env: Env, cache: Cache, request: LogId)
    ensures exists db: DataBlock ::
              && db.transportPayload != "" && StoreValue(EMPTY_STORE, env, db).result.Ok?
              && FinalCommit(cache, EMPTY_STORE, env, db, request, db.blockType).sends != []
              && FinalCommit(cache, EMPTY_STORE, env, db, request, db.blockType).sends[0].log.id.peerId == ""
  {
    var text := seq(PAYLOAD_LIMIT + 1, _ => 'x');
    var db := DataBlock("b", 2, 2, TYPE_P2P_CHAT, "n", "c", text, "", "", [], 1, 0, 0, "p", "", STATUS_EFFECTIVE);
    assert TYPE_P2P_CHAT[0] == 'P' && TYPE_CHAT_ATTACH[0] == 'C' && TYPE_COLLECTION[0] == 'C';
    assert TransactionType(TYPE_P2P_CHAT)[10] == 'P' && TransactionType(TYPE_COLLECTION)[10] == 'C';
    assert KindsOf(TransactionType(TYPE_P2P_CHAT)) == [KIND_P2P_CHAT];
    assert KIND_P2P_CHAT[0] == 'B' && KIND_SRC[0] == 'S';
    assert PutVerdict(EntryFor(env, db)).Ok?;
    assert Judge(EMPTY_STORE, env, db) == Write(0);
    DeleteNoticeExactly(cache, EMPTY_STORE, env, db, request, db.blockType);
  }

  // ----- proposing a slice twice -----

  function Version(payload: string, ts: nat): DataBlock {
    DataBlock("b", 2, 2, TYPE_COLLECTION, "n", "c", payload, "", "", [], ts, 0, 0, "", "", "")
  }

  lemma StoringVersion(env: Env, db: DataBlock)
    requires db.blockType == TYPE_COLLECTION && db.blockId != "" && db.sliceNumber == 2 && db.businessNumber != ""
    requires db.peerId != "" && db.transportPayload != ""
    ensures StoreValue(EMPTY_STORE, env, db).result.Ok?
  {
    assert TYPE_COLLECTION[1] == 'o' && TYPE_CHAT_ATTACH[1] == 'h';
    assert KindsOf(EntryFor(env, db).transactionType) == [KIND_SRC, KIND_TARGET];
  }

  function Asked(db: DataBlock): DataBlock { Proposal("p", db, ["q"]) }

  /** A proposal step of "p" that asks "q". */
  lemma ProposeIn(p: Params, s: Sys, db: DataBlock) returns (t: Sys)
    requires p.cfg == Config(1, 1) && "p" in s.nodes && db.blockType == TYPE_COLLECTION
    requires db.transportPayload != "" && db.primaryPeerId == ""
    ensures Moves(p, s, Step.Propose("p", db, ["q"], ["q"]), t)
    ensures t == s.(nodes := t.nodes, net := s.net + {Commited("q", Asked(db))}, proposed := t.proposed)
    ensures t.nodes == s.nodes["p" := NodeState(
                                 s.nodes["p"].cache[DataKey(db.blockId, db.sliceNumber) := BlockEntry(Asked(db))],
                                 s.nodes["p"].store)]
  {
    var step := Step.Propose("p", db, ["q"], ["q"]);
    t := Exec(p, s, step);
    assert GoodPeer("p") && GoodPeer("q") && GoodList(["q"]);
    assert TYPE_COLLECTION[1] == 'o' && TYPE_CHAT_ATTACH[1] == 'h';
    assert Notices("p", Asked(db), ["q"]) == [Commited("q", Asked(db))] by {
      assert ["q"][..0] == [];
      assert "p"[0] != "q"[0];
    }
    assert Sent([Commited("q", Asked(db))]) == {Commited("q", Asked(db))};
  }

  /** A delivery of a proposal to "q", which stores it in its empty tables and replies. */
  lemma DeliverIn(p: Params, s: Sys, d: DataBlock) returns (t: Sys)
    requires "q" in s.nodes && s.nodes["q"].store == EMPTY_STORE && Commited("q", d) in s.net
    requires d.blockType == TYPE_COLLECTION && d.blockId != "" && d.sliceNumber == 2 && d.businessNumber != ""
    requires d.peerId != "" && d.transportPayload != ""
    ensures Moves(p, s, DeliverBlock("q", d), t)
    ensures t == s.(nodes := t.nodes, net := s.net + {Reply(d.primaryPeerId, LogOf("q", d))},
                    stored := s.stored + {StoreEvent("q", d.(status := STATUS_EFFECTIVE))})
    ensures t.nodes == s.nodes["q" := NodeState(s.nodes["q"].cache, t.nodes["q"].store)]
  {
    var step := DeliverBlock("q", d);
    assert GoodPeer("q");
    StoringVersion(EnvOf(p, "q"), d.(status := STATUS_EFFECTIVE));
    t := Exec(p, s, step);
    assert Sent([Reply(d.primaryPeerId, LogOf("q", d))]) == {Reply(d.primaryPeerId, LogOf("q", d))};
  }

  const V1 := Version("x", 1)
  const V2 := Version("y", 2)

  /** Nodes "p" and "q", with nothing in their tables. */
  function Fresh(): Sys {
    var empty := NodeState(map[], EMPTY_STORE);
    Sys(map["p" := empty, "q" := empty], {}, {}, [], map[], {})
  }

  /** The first version is proposed, and stored and answered by "q". */
  lemma ProposeOnce(p: Params) returns (steps: seq<Step>, states: seq<Sys>)
    requires p.cfg == Config(1, 1)
    ensures Run(p, steps, states) && |steps| == 2
    ensures var s := states[2];
            && "p" in s.nodes && s.nodes["p"].cache == map[DataKey("b", 2) := BlockEntry(Asked(V1))]
            && Reply("p", LogOf("q", Asked(V1))) in s.net
            && s.stored == {StoreEvent("q", Asked(V1).(status := STATUS_EFFECTIVE))}
  {
    hide Moves;
    var s0 := Fresh();
    assert "p"[0] != "q"[0];
    assert GoodPeer("p") && GoodPeer("q");
    var s1 := ProposeIn(p, s0, V1);
    assert s1.nodes["q"] == s0.nodes["q"];
    var s2 := DeliverIn(p, s1, Asked(V1));
    assert s2.nodes["p"] == s1.nodes["p"];
    steps, states := [Step.Propose("p", V1, ["q"], ["q"]), DeliverBlock("q", Asked(V1))], [s0, s1, s2];
    forall i | 0 <= i < |steps| ensures Moves(p, states[i], steps[i], states[i + 1]) {
      assert i == 0 || i == 1;
    }
  }

  /** Peer q answers the first proposal; before the answer arrives the slice is proposed again. The late answer then
      commits the second version, which no peer has stored. */
  lemma StaleReplyCommits() returns (p: Params, steps: seq<Step>, states: seq<Sys>)
    ensures Run(p, steps, states)
    ensures exists c :: c in states[|steps|].commits && forall q :: StoreEvent(q, c.block) !in states[|steps|].stored
  {
    hide Run;
    hide Exec;
    p := Params(Config(1, 1), _ => true, (_, _, _) => true);
    var front, before := ProposeOnce(p);
    var propose := Step.Propose("p", V2, ["q"], ["q"]);
    assert "p"[0] != "q"[0] && "x"[0] != "y"[0];
    assert TYPE_COLLECTION[1] == 'o' && TYPE_CHAT_ATTACH[1] == 'h';
    assert GoodPeer("p") && GoodList(["q"]);
    DataKeyIsNotLogKey("b", 2, LogOf("q", Asked(V1)).id);
    assert Asked(V2).transportPayload != Asked(V1).transportPayload;
    var more, later := StaleRepliesCommit(p, front, before, propose, Asked(V1), ["q"], "q");
    steps, states := front + more, before + later;
  }
}
