/** What a room's state means: over every run it is determined by the plain set of its members. */
module SfuMesh {

  import opened Sfu
  import opened Wrappers

  // ----- the mesh a set of members should have -----

  function SubscribersOf(peers: map<string, Peer>): map<string, Peer>
  {
    map k | k in peers && Subscribes(peers[k]) :: peers[k]
  }

  /** The subscribers a publisher should reach: all but itself. */
  function Audience(peers: map<string, Peer>, id: string): map<string, Peer>
  {
    SubscribersOf(peers) - {id}
  }

  function Mesh(peers: map<string, Peer>): State
  {
    State(peers, map p | p in peers && Publishes(peers[p]) :: Audience(peers, p), SubscribersOf(peers))
  }

  predicate Keyed(peers: map<string, Peer>) { forall k | k in peers :: peers[k].id == k }

  /** The state of members that may have met track failures: the lists may lack subscribers, but hold no other. */
  ghost predicate Meshed(s: State)
  {
    && Keyed(s.peers)
    && s.subscribers == SubscribersOf(s.peers)
    && (forall p :: p in s.publishers <==> p in s.peers && Publishes(s.peers[p]))
    && forall p | p in s.publishers :: Within(s.publishers[p], Audience(s.peers, p))
  }

  predicate Within(a: map<string, Peer>, b: map<string, Peer>)
  {
    forall k | k in a :: k in b && a[k] == b[k]
  }

  predicate Exact(s: State) { Keyed(s.peers) && s == Mesh(s.peers) }

  // ----- one step -----

  lemma SubscribersGrow(peers: map<string, Peer>, peer: Peer)
    requires peer.id !in peers
    ensures SubscribersOf(peers[peer.id := peer]) ==
            if Subscribes(peer) then SubscribersOf(peers)[peer.id := peer] else SubscribersOf(peers)
    ensures peer.id !in SubscribersOf(peers)
  {
  }

  /** The state once a fresh peer is a member and, if it publishes, has its own list, before it subscribes. */
  function Registered(s: State, peer: Peer): State
  {
    var a := s.(peers := s.peers[peer.id := peer]);
    if Publishes(peer) then Published(a, peer.id) else a
  }

  /** What a fresh join changes: `visited` are the publishers that list the newcomer. */
  ghost predicate Joined(s: State, peer: Peer, visited: set<string>, t: State)
  {
    && t.peers == s.peers[peer.id := peer]
    && t.subscribers == (if Subscribes(peer) then s.subscribers[peer.id := peer] else s.subscribers)
    && (forall p :: p in t.publishers <==> p in s.publishers || (p == peer.id && Publishes(peer)))
    && (Publishes(peer) ==> t.publishers[peer.id] == s.subscribers)
    && forall p | p in s.publishers ::
         t.publishers[p] ==
         if Subscribes(peer) && p in visited then s.publishers[p][peer.id := peer] else s.publishers[p]
  }

  lemma RegisteredJoins(s: State, peer: Peer, visited: set<string>)
    requires Meshed(s) && peer.id !in s.peers && visited <= s.publishers.Keys
    ensures var b := Registered(s, peer);
            Joined(s, peer, visited, if Subscribes(peer) then Subscribed(b, peer, visited) else b)
  {
    hide SubscribersOf;
    hide Publishes;
    hide Subscribes;
    NotListed(s, peer.id);
    assert s.subscribers - {peer.id} == s.subscribers;
  }

  /** A fresh join of a connection with a room fails by its tracks alone, and they can only change which publishers
      list the newcomer. */
  lemma JoinShape(s: State, peer: Peer, media: Media, t: State, err: Option<Error>)
    requires Meshed(s) && peer.id !in s.peers && JoinStep(s, peer, media, t, err)
    ensures err == if peer.room.None? then Some(NilRoom) else if err == None then None else Some(TrackFailed)
    ensures exists visited ::
              && visited <= s.publishers.Keys
              && Joined(s, peer, visited, t)
              && (err != Some(TrackFailed) ==> visited == s.publishers.Keys)
  {
    hide Listed;
    hide SubscribersOf;
    hide Joined;
    NotListed(s, peer.id);
    var b := Registered(s, peer);
    var all := s.publishers.Keys;
    if Subscribes(peer) {
      assert SubscribeStep(b, peer, media, t, err);
      TargetsAreOthers(s, peer);
      var visited :| && visited <= all
                     && t == Subscribed(b, peer, visited)
                     && (CreatableAmong(media, all) ==> visited == all);
      RegisteredJoins(s, peer, visited);
    } else {
      RegisteredJoins(s, peer, all);
    }
  }

  lemma NotListed(s: State, id: string)
    requires Meshed(s) && id !in s.peers
    ensures id !in s.publishers && id !in s.subscribers
    ensures forall p | p in s.publishers :: id !in s.publishers[p]
  {
  }

  lemma TargetsAreOthers(s: State, peer: Peer)
    requires Meshed(s) && peer.id !in s.peers
    ensures Targets(Registered(s, peer), peer.id) == s.publishers.Keys
  {
    hide SubscribersOf;
    NotListed(s, peer.id);
  }

  lemma AudienceGrows(peers: map<string, Peer>, peer: Peer, p: string)
    requires peer.id !in peers && p != peer.id
    ensures Audience(peers[peer.id := peer], p) ==
            if Subscribes(peer) then Audience(peers, p)[peer.id := peer] else Audience(peers, p)
  {
    SubscribersGrow(peers, peer);
  }

  lemma OwnAudience(peers: map<string, Peer>, peer: Peer)
    requires peer.id !in peers
    ensures Audience(peers[peer.id := peer], peer.id) == SubscribersOf(peers) == SubscribersOf(peers) - {peer.id}
  {
    SubscribersGrow(peers, peer);
  }

  lemma JoinedLists(s: State, peer: Peer, visited: set<string>, t: State, p: string)
    requires Meshed(s) && peer.id !in s.peers && Joined(s, peer, visited, t) && p in t.publishers
    ensures Within(t.publishers[p], Audience(t.peers, p))
    ensures Exact(s) && visited == s.publishers.Keys ==> t.publishers[p] == Audience(t.peers, p)
  {
    hide SubscribersOf;
    hide Publishes;
    hide Subscribes;
    NotListed(s, peer.id);
    if p == peer.id {
      OwnAudience(s.peers, peer);
    } else {
      AudienceGrows(s.peers, peer, p);
    }
  }

  lemma JoinedKeeps(s: State, peer: Peer, visited: set<string>, t: State)
    requires Meshed(s) && peer.id !in s.peers && Joined(s, peer, visited, t)
    ensures Meshed(t)
    ensures Exact(s) && visited == s.publishers.Keys ==> Exact(t)
  {
    hide SubscribersOf;
    hide Publishes;
    hide Subscribes;
    hide Audience;
    hide Within;
    SubscribersGrow(s.peers, peer);
    forall p | p in t.publishers
      ensures Within(t.publishers[p], Audience(t.peers, p))
      ensures Exact(s) && visited == s.publishers.Keys ==> t.publishers[p] == Audience(t.peers, p)
    {
      JoinedLists(s, peer, visited, t, p);
    }
  }

  /** A fresh join keeps the room meshed whatever tracks fail, and exact when none does. */
  lemma JoinKeeps(s: State, peer: Peer, media: Media, t: State, err: Option<Error>)
    requires Meshed(s) && peer.id !in s.peers && JoinStep(s, peer, media, t, err)
    ensures t.peers == s.peers[peer.id := peer] && Meshed(t)
    ensures Exact(s) && err != Some(TrackFailed) ==> Exact(t)
  {
    hide Meshed;
    hide Exact;
    hide JoinStep;
    JoinShape(s, peer, media, t, err);
    var visited :| visited <= s.publishers.Keys && Joined(s, peer, visited, t)
                   && (err != Some(TrackFailed) ==> visited == s.publishers.Keys);
    JoinedKeeps(s, peer, visited, t);
  }

  /** Some track of a publisher cannot be made local, or cannot be added to a subscriber. */
  ghost predicate SomeTrackFails(s: State, media: Media)
  {
    exists p, i :: p in s.publishers && p in media && 0 <= i < |media[p]| && !(media[p][i].creatable && media[p][i].addable)
  }

  lemma JoinFails(s: State, peer: Peer, media: Media, t: State, err: Option<Error>)
    requires Meshed(s) && peer.id !in s.peers && JoinStep(s, peer, media, t, err)
    ensures err == Some(TrackFailed) <==> Subscribes(peer) && SomeTrackFails(s, media)
  {
    NotListed(s, peer.id);
    TargetsAreOthers(s, peer);
    GoodExactly(s, media);
    hide Targets;
    hide SomeTrackFails;
    hide Good;
    hide Meshed;
    hide Listed;
  }

  lemma GoodExactly(s: State, media: Media)
    ensures Good(media, s.publishers.Keys) <==> !SomeTrackFails(s, media)
  {
    if SomeTrackFails(s, media) {
      var p, i :| p in s.publishers && p in media && 0 <= i < |media[p]| && !(media[p][i].creatable && media[p][i].addable);
      assert media[p][i] in TracksOf(media, p);
    }
  }

  /** What a fresh join makes of a connection, by the role it has in its room: a publisher gets a list, which holds all
      subscribers there were; a subscriber is registered, and entered with the publishers there were, with all of them
      unless a track fails; a "pubsub" connection is both; and any other is a member and no more. */
  lemma JoinByRole(s: State, peer: Peer, media: Media, t: State, err: Option<Error>)
    requires Meshed(s) && peer.id !in s.peers && JoinStep(s, peer, media, t, err)
    ensures var publishes := peer.room.Some? && (peer.room.value.identity == Publisher || peer.room.value.identity == PubSub);
            var subscribes := peer.room.Some? && (peer.room.value.identity == Subscriber || peer.room.value.identity == PubSub);
            && t.peers == s.peers[peer.id := peer]
            && t.subscribers == (if subscribes then s.subscribers[peer.id := peer] else s.subscribers)
            && (forall p :: p in t.publishers <==> p in s.publishers || (p == peer.id && publishes))
            && (publishes ==> t.publishers[peer.id] == s.subscribers)
            && (forall p | p in s.publishers ::
                  && (t.publishers[p] == s.publishers[p] || (subscribes && t.publishers[p] == s.publishers[p][peer.id := peer]))
                  && (subscribes && err != Some(TrackFailed) ==> t.publishers[p] == s.publishers[p][peer.id := peer]))
            && (err == Some(TrackFailed) <==> subscribes && SomeTrackFails(s, media))
            && (err == Some(NilRoom) <==> peer.room.None?)
  {
    JoinFails(s, peer, media, t, err);
    JoinShape(s, peer, media, t, err);
    hide Meshed;
    hide JoinStep;
    var visited :| visited <= s.publishers.Keys && Joined(s, peer, visited, t)
                   && (err != Some(TrackFailed) ==> visited == s.publishers.Keys);
  }

  lemma AudienceShrinks(peers: map<string, Peer>, id: string, p: string)
    ensures Audience(peers - {id}, p) == Audience(peers, p) - {id}
    ensures SubscribersOf(peers - {id}) == SubscribersOf(peers) - {id}
  {
  }

  lemma LeaveKeeps(s: State, id: string)
    requires Meshed(s) && id in s.peers
    ensures Left(s, id).peers == s.peers - {id} && Meshed(Left(s, id))
    ensures Exact(s) ==> Exact(Left(s, id))
  {
    hide SubscribersOf;
    hide Audience;
    hide Publishes;
    var t := Left(s, id);
    AudienceShrinks(s.peers, id, id);
    forall p | p in t.publishers
      ensures Audience(t.peers, p) == Audience(s.peers, p) - {id}
    {
      AudienceShrinks(s.peers, id, p);
    }
    assert Exact(s) ==> t.publishers == Mesh(t.peers).publishers;
  }

  lemma JoinedThenLeft(s: State, peer: Peer, visited: set<string>, t: State)
    requires Meshed(s) && peer.id !in s.peers && Joined(s, peer, visited, t)
    ensures peer.id in t.peers && Left(t, peer.id) == s
  {
    hide SubscribersOf;
    hide Publishes;
    hide Subscribes;
    NotListed(s, peer.id);
    var u := Left(t, peer.id);
    assert u.peers == s.peers;
    assert u.subscribers == s.subscribers;
    forall p | p in s.publishers
      ensures t.publishers[p] - {peer.id} == s.publishers[p]
    {
    }
    assert u.publishers == s.publishers;
  }

  /** A join of a fresh connection followed by its leave restores the room, even when tracks failed. */
  lemma JoinThenLeave(s: State, peer: Peer, media: Media, t: State, err: Option<Error>,
                      u: State, left: Option<Error>)
    requires Meshed(s) && peer.id !in s.peers
    requires JoinStep(s, peer, media, t, err) && LeaveStep(t, peer.id, u, left)
    ensures u == s && left == None
  {
    hide JoinStep;
    hide Joined;
    hide Meshed;
    JoinShape(s, peer, media, t, err);
    var visited :| visited <= s.publishers.Keys && Joined(s, peer, visited, t);
    JoinedThenLeft(s, peer, visited, t);
  }

  // ----- runs -----

  datatype Op = JoinOp(peer: Peer, media: Media) | LeaveOp(id: string)

  ghost predicate Step(s: State, op: Op, t: State, err: Option<Error>)
  {
    match op
    case JoinOp(peer, media) => JoinStep(s, peer, media, t, err)
    case LeaveOp(id) => LeaveStep(s, id, t, err)
  }

  /** States and results of performing operations one after the other on a new room. */
  ghost predicate Run(ops: seq<Op>, states: seq<State>, errs: seq<Option<Error>>)
  {
    && |states| == |ops| + 1 && |errs| == |ops|
    && states[0] == EMPTY
    && forall i | 0 <= i < |ops| :: Step(states[i], ops[i], states[i + 1], errs[i])
  }

  /** The plain set of members, each with its role: a join adds a new one, a leave removes it. */
  function Members(ops: seq<Op>): map<string, Peer>
  {
    if ops == [] then map[] else MembersNext(Members(ops[..|ops| - 1]), ops[|ops| - 1])
  }

  function MembersNext(was: map<string, Peer>, op: Op): map<string, Peer>
  {
    match op
    case JoinOp(peer, _) => if peer.id in was then was else was[peer.id := peer]
    case LeaveOp(id) => was - {id}
  }

  lemma StepKeeps(s: State, op: Op, t: State, err: Option<Error>)
    requires Meshed(s) && Step(s, op, t, err)
    ensures Meshed(t)
    ensures Exact(s) && err != Some(TrackFailed) ==> Exact(t)
    ensures t.peers == MembersNext(s.peers, op)
  {
    hide Meshed;
    hide Mesh;
    match op
    case JoinOp(peer, media) =>
      if peer.id !in s.peers {
        JoinShape(s, peer, media, t, err);
        JoinKeeps(s, peer, media, t, err);
      }
    case LeaveOp(id) =>
      if id in s.peers {
        LeaveKeeps(s, id);
      } else {
        assert s.peers - {id} == s.peers;
      }
  }

  lemma RunPrefix(ops: seq<Op>, states: seq<State>, errs: seq<Option<Error>>, n: nat)
    requires Run(ops, states, errs) && n <= |ops|
    ensures Run(ops[..n], states[..n + 1], errs[..n])
  {
  }

  /** Over every run the state is a mesh of exactly the members; without a track failure it is the whole mesh. */
  lemma {:induction false} MeshOverRuns(ops: seq<Op>, states: seq<State>, errs: seq<Option<Error>>)
    requires Run(ops, states, errs)
    ensures states[|ops|].peers == Members(ops) && Meshed(states[|ops|])
    ensures Some(TrackFailed) !in errs ==> states[|ops|] == Mesh(Members(ops))
    decreases |ops|
  {
    hide Mesh;
    if ops == [] {
      EmptyIsMesh();
    } else {
      hide Meshed;
      hide MembersNext;
      hide Step;
      var n := |ops| - 1;
      RunPrefix(ops, states, errs, n);
      MeshOverRuns(ops[..n], states[..n + 1], errs[..n]);
      MeshedIsKeyed(states[n]);
      StepKeeps(states[n], ops[n], states[n + 1], errs[n]);
      assert errs[n] in errs && forall e | e in errs[..n] :: e in errs;
    }
  }

  /** The same by the roles of the members: over every run without a track failure the subscribers are the members with
      the role "subscriber" or "pubsub", the publishers those with "publisher" or "pubsub", and each publisher lists all
      subscribers but itself. */
  lemma RolesOverRuns(ops: seq<Op>, states: seq<State>, errs: seq<Option<Error>>)
    requires Run(ops, states, errs) && Some(TrackFailed) !in errs
    ensures var s, members := states[|ops|], Members(ops);
            && (forall k :: k in s.subscribers <==>
                  && k in members && members[k].room.Some?
                  && (members[k].room.value.identity == Subscriber || members[k].room.value.identity == PubSub))
            && (forall p :: p in s.publishers <==>
                  && p in members && members[p].room.Some?
                  && (members[p].room.value.identity == Publisher || members[p].room.value.identity == PubSub))
            && (forall p, k | p in s.publishers :: k in s.publishers[p] <==> k in s.subscribers && k != p)
            && (forall p, k | p in s.publishers && k in s.publishers[p] :: s.publishers[p][k] == members[k])
  {
    MeshOverRuns(ops, states, errs);
  }

  lemma EmptyIsMesh()
    ensures EMPTY == Mesh(map[])
  {
  }

  lemma MeshedIsKeyed(s: State)
    requires Meshed(s)
    ensures Keyed(s.peers)
  {
  }

  /** The order in which members came and went leaves no trace. */
  lemma HistoryLeavesNoTrace(ops1: seq<Op>, states1: seq<State>, errs1: seq<Option<Error>>,
                             ops2: seq<Op>, states2: seq<State>, errs2: seq<Option<Error>>)
    requires Run(ops1, states1, errs1) && Run(ops2, states2, errs2)
    requires Some(TrackFailed) !in errs1 && Some(TrackFailed) !in errs2
    requires Members(ops1) == Members(ops2)
    ensures states1[|ops1|] == states2[|ops2|]
  {
    MeshOverRuns(ops1, states1, errs1);
    MeshOverRuns(ops2, states2, errs2);
  }
}
