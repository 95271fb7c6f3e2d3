/** The pool of rooms on one server: a room is made by its first join and dropped by its last leave. */
module SfuPool {

  import opened Sfu
  import opened SfuMesh
  import opened Wrappers

  /** The rooms of a pool, by room id. */
  type View = map<string, State>

  datatype PoolOp = PoolJoin(peer: Peer, media: Media) | PoolLeave(peer: Peer) | PoolDestroy(roomId: string)

  /** What is wrong with a connection's room, if anything. */
  function RoomFault(peer: Peer): Option<Error>
  {
    match peer.room
    case None => Some(NoRouter)
    case Some(room) => if room.roomId == "" then Some(NoRoomId) else None
  }

  function RoomOf(v: View, roomId: string): State { if roomId in v then v[roomId] else EMPTY }

  ghost predicate PoolJoinStep(v: View, peer: Peer, media: Media, w: View, err: Option<Error>)
  {
    if RoomFault(peer).Some? then w == v && err == RoomFault(peer)
    else
      var r := peer.room.value.roomId;
      r in w && w == v[r := w[r]] && JoinStep(RoomOf(v, r), peer, media, w[r], err)
  }

  ghost predicate PoolLeaveStep(v: View, peer: Peer, w: View, err: Option<Error>)
  {
    if RoomFault(peer).Some? then w == v && err == RoomFault(peer)
    else
      var r := peer.room.value.roomId;
      if r !in v then w == v && err == Some(NotExist)
      else if peer.id !in v[r].peers then w == v && err == Some(NotExist)
      else
        var t := Left(v[r], peer.id);
        err == None && w == if t.peers == map[] then v - {r} else v[r := t]
  }

  ghost predicate PoolStep(v: View, op: PoolOp, w: View, err: Option<Error>)
  {
    match op
    case PoolJoin(peer, media) => PoolJoinStep(v, peer, media, w, err)
    case PoolLeave(peer) => PoolLeaveStep(v, peer, w, err)
    case PoolDestroy(r) => w == v - {r} && err == if r in v then None else Some(NotExist)
  }

  // ----- the code -----

  class SfuPool {
    var sfus: map<string, Sfu>

    ghost predicate Valid()
      reads this
    {
      forall r | r in sfus :: sfus[r].id == r
    }

    ghost function View(): View
      reads this, sfus.Values
    {
      map r | r in sfus :: sfus[r].Value()
    }

    constructor ()
      ensures Valid() && View() == map[] && sfus == map[]
    {
      sfus := map[];
    }

    method Join(peer: Peer, media: Media) returns (sfu: Option<Sfu>, err: Option<Error>)
      requires Valid()
      modifies this, sfus.Values
      ensures Valid() && fresh(sfus.Values - old(sfus.Values))
      ensures PoolJoinStep(old(View()), peer, media, View(), err)
      ensures sfu.None? <==> RoomFault(peer).Some?
      ensures sfu.Some? ==> peer.room.value.roomId in sfus && sfu.value == sfus[peer.room.value.roomId]
    {
      if peer.room.None? {
        return None, Some(NoRouter);
      }
      var roomId := peer.room.value.roomId;
      if roomId == "" {
        return None, Some(NoRoomId);
      }
      ghost var was := View();
      if roomId !in sfus {
        var created := new Sfu(roomId);
        sfus := sfus[roomId := created];
      }
      var s := sfus[roomId];
      assert s.Value() == RoomOf(was, roomId);
      err := s.Join(peer, media);
      assert View() == was[roomId := s.Value()];
      return Some(s), err;
    }

    /** Finds the room whose own id is asked for, and finds one exactly when somebody is joined to it. */
    method Get(roomId: string) returns (sfu: Option<Sfu>)
      requires Valid()
      ensures sfu.Some? ==> sfu.value.id == roomId && sfu.value in sfus.Values
      ensures forall s | s in sfus.Values && s.id == roomId :: sfu == Some(s)
      ensures forall pairs | Occupied(View()) && Records(View(), pairs) ::
                sfu.Some? <==> exists i :: (roomId, i) in pairs
    {
      if roomId in sfus {
        assert Occupied(View()) ==> exists i :: i in View()[roomId].peers;
        return Some(sfus[roomId]);
      }
      return None;
    }

    method Leave(peer: Peer) returns (err: Option<Error>)
      requires Valid()
      modifies this, sfus.Values
      ensures Valid()
      ensures sfus == old(sfus) || (peer.room.Some? && sfus == old(sfus) - {peer.room.value.roomId})
      ensures PoolLeaveStep(old(View()), peer, View(), err)
    {
      if peer.room.None? {
        return Some(NoRouter);
      }
      var roomId := peer.room.value.roomId;
      if roomId == "" {
        return Some(NoRoomId);
      }
      if roomId !in sfus {
        return Some(NotExist);
      }
      hide Left;
      err := Depart(roomId, peer);
    }

    /** Takes a connection out of an existing room, and drops the room with its last member. */
    method Depart(roomId: string, peer: Peer) returns (err: Option<Error>)
      requires Valid() && roomId in sfus
      modifies this, sfus.Values
      ensures Valid() && (sfus == old(sfus) || sfus == old(sfus) - {roomId})
      ensures var v, id := old(View()), peer.id;
              if id !in v[roomId].peers then View() == v && err == Some(NotExist)
              else
                var t := Left(v[roomId], id);
                err == None && View() == if t.peers == map[] then v - {roomId} else v[roomId := t]
    {
      hide Left;
      ghost var was := View();
      var s := sfus[roomId];
      err := s.Leave(peer);
      assert View() == was[roomId := s.Value()];
      assert err.Some? ==> View() == was;
      if err.None? {
        DropIfEmpty(roomId);
      }
    }

    method DropIfEmpty(roomId: string)
      requires Valid() && roomId in sfus
      modifies this
      ensures Valid()
      ensures var v := old(View());
              if v[roomId].peers == map[] then sfus == old(sfus) - {roomId} && View() == v - {roomId}
              else sfus == old(sfus)
    {
      ghost var was := View();
      assert was[roomId].peers == sfus[roomId].peerConnections;
      if sfus[roomId].peerConnections == map[] {
        sfus := sfus - {roomId};
        assert View() == was - {roomId};
      }
    }

    method Destroy(roomId: string) returns (err: Option<Error>)
      requires Valid()
      modifies this
      ensures Valid() && sfus == old(sfus) - {roomId}
      ensures PoolStep(old(View()), PoolDestroy(roomId), View(), err)
    {
      if roomId !in sfus {
        return Some(NotExist);
      }
      sfus := sfus - {roomId};
      return None;
    }
  }

  // ----- runs -----

  ghost predicate PoolRun(ops: seq<PoolOp>, views: seq<View>, errs: seq<Option<Error>>)
  {
    && |views| == |ops| + 1 && |errs| == |ops|
    && views[0] == map[]
    && forall i | 0 <= i < |ops| :: PoolStep(views[i], ops[i], views[i + 1], errs[i])
  }

  /** Who is joined to which room after some operations: pairs of a room id and a connection id. */
  function JoinedPairs(ops: seq<PoolOp>): set<(string, string)>
  {
    if ops == [] then {} else JoinedNext(JoinedPairs(ops[..|ops| - 1]), ops[|ops| - 1])
  }

  predicate InNamedRoom(peer: Peer) { peer.room.Some? && peer.room.value.roomId != "" }

  function JoinedNext(was: set<(string, string)>, op: PoolOp): set<(string, string)>
  {
    match op
    case PoolJoin(peer, _) => if InNamedRoom(peer) then was + {(peer.room.value.roomId, peer.id)} else was
    case PoolLeave(peer) => if InNamedRoom(peer) then was - {(peer.room.value.roomId, peer.id)} else was
    case PoolDestroy(r) => set p | p in was && p.0 != r
  }

  /** Every room is a mesh of at least one member. */
  ghost predicate Occupied(v: View)
  {
    forall r | r in v :: Meshed(v[r]) && v[r].peers != map[]
  }

  ghost predicate Records(v: View, pairs: set<(string, string)>)
  {
    forall r, i :: (r, i) in pairs <==> r in v && i in v[r].peers
  }

  lemma EmptyIsMeshed()
    ensures Meshed(EMPTY)
  {
  }

  lemma RoomIsMeshed(v: View, r: string)
    requires Occupied(v)
    ensures Meshed(RoomOf(v, r))
  {
    EmptyIsMeshed();
  }

  lemma JoinedMembers(s: State, peer: Peer, media: Media, t: State, err: Option<Error>)
    requires Meshed(s) && JoinStep(s, peer, media, t, err)
    ensures Meshed(t) && t.peers.Keys == s.peers.Keys + {peer.id}
  {
    hide Meshed;
    if peer.id !in s.peers {
      JoinKeeps(s, peer, media, t, err);
    }
  }

  lemma PoolJoinKeeps(v: View, pairs: set<(string, string)>, peer: Peer, media: Media, w: View, err: Option<Error>)
    requires Occupied(v) && Records(v, pairs) && PoolJoinStep(v, peer, media, w, err) && RoomFault(peer).None?
    ensures Occupied(w) && Records(w, pairs + {(peer.room.value.roomId, peer.id)})
  {
    hide Meshed;
    hide JoinStep;
    var r := peer.room.value.roomId;
    RoomIsMeshed(v, r);
    JoinedMembers(RoomOf(v, r), peer, media, w[r], err);
    assert peer.id in w[r].peers;
  }

  lemma PoolLeaveKeeps(v: View, pairs: set<(string, string)>, peer: Peer, w: View, err: Option<Error>)
    requires Occupied(v) && Records(v, pairs) && PoolLeaveStep(v, peer, w, err) && RoomFault(peer).None?
    ensures Occupied(w) && Records(w, pairs - {(peer.room.value.roomId, peer.id)})
  {
    hide Meshed;
    var r := peer.room.value.roomId;
    if r in v && peer.id in v[r].peers {
      LeaveKeeps(v[r], peer.id);
      var t := Left(v[r], peer.id);
      assert t.peers == map[] ==> forall i | i in v[r].peers :: i == peer.id by {
        assert forall i | i in v[r].peers && i != peer.id :: i in t.peers;
      }
    }
  }

  lemma PoolStepKeeps(v: View, pairs: set<(string, string)>, op: PoolOp, w: View, err: Option<Error>)
    requires Occupied(v) && Records(v, pairs) && PoolStep(v, op, w, err)
    ensures Occupied(w) && Records(w, JoinedNext(pairs, op))
  {
    hide Meshed;
    hide PoolJoinStep;
    hide PoolLeaveStep;
    match op
    case PoolJoin(peer, media) =>
      if RoomFault(peer).None? {
        PoolJoinKeeps(v, pairs, peer, media, w, err);
      } else {
        FaultChangesNothing(v, op, w, err);
      }
    case PoolLeave(peer) =>
      if RoomFault(peer).None? {
        PoolLeaveKeeps(v, pairs, peer, w, err);
      } else {
        FaultChangesNothing(v, op, w, err);
      }
    case PoolDestroy(r) =>
  }

  /** Over every run the pool records exactly who is joined where, and every room is a mesh of its members. */
  lemma {:induction false} PoolOverRuns(ops: seq<PoolOp>, views: seq<View>, errs: seq<Option<Error>>)
    requires PoolRun(ops, views, errs)
    ensures Occupied(views[|ops|]) && Records(views[|ops|], JoinedPairs(ops))
    decreases |ops|
  {
    if ops != [] {
      hide Occupied;
      hide Records;
      hide PoolStep;
      hide JoinedNext;
      var n := |ops| - 1;
      PoolOverRuns(ops[..n], views[..n + 1], errs[..n]);
      PoolStepKeeps(views[n], JoinedPairs(ops[..n]), ops[n], views[n + 1], errs[n]);
    }
  }

  lemma FaultChangesNothing(v: View, op: PoolOp, w: View, err: Option<Error>)
    requires !op.PoolDestroy? && RoomFault(op.peer).Some? && PoolStep(v, op, w, err)
    ensures w == v && err == RoomFault(op.peer)
  {
  }

  /** What a join answers, by who is joined where; tracks are the only other thing that can go wrong. */
  lemma JoinAnswers(v: View, pairs: set<(string, string)>, peer: Peer, media: Media, w: View, err: Option<Error>)
    requires Occupied(v) && Records(v, pairs) && PoolJoinStep(v, peer, media, w, err)
    ensures peer.room.None? ==> err == Some(NoRouter)
    ensures peer.room.Some? && peer.room.value.roomId == "" ==> err == Some(NoRoomId)
    ensures InNamedRoom(peer) ==>
              if (peer.room.value.roomId, peer.id) in pairs then err == Some(Exist)
              else err == None || err == Some(TrackFailed)
  {
    hide Meshed;
    if InNamedRoom(peer) {
      var r := peer.room.value.roomId;
      RoomIsMeshed(v, r);
      if peer.id !in RoomOf(v, r).peers {
        JoinShape(RoomOf(v, r), peer, media, w[r], err);
      }
    }
  }

  /** What a leave answers. */
  lemma LeaveAnswers(v: View, pairs: set<(string, string)>, peer: Peer, w: View, err: Option<Error>)
    requires Occupied(v) && Records(v, pairs) && PoolLeaveStep(v, peer, w, err)
    ensures peer.room.None? ==> err == Some(NoRouter)
    ensures peer.room.Some? && peer.room.value.roomId == "" ==> err == Some(NoRoomId)
    ensures InNamedRoom(peer) ==>
              err == if (peer.room.value.roomId, peer.id) in pairs then None else Some(NotExist)
  {
  }

  /** The pool holds a room exactly when some connection is joined to it. */
  lemma RoomExactlyWhenJoined(ops: seq<PoolOp>, views: seq<View>, errs: seq<Option<Error>>, r: string)
    requires PoolRun(ops, views, errs)
    ensures r in views[|ops|] <==> exists i :: (r, i) in JoinedPairs(ops)
  {
    hide Meshed;
    PoolOverRuns(ops, views, errs);
    var v := views[|ops|];
    if r in v {
      var i :| i in v[r].peers;
      assert (r, i) in JoinedPairs(ops);
    }
  }

  /** A join of a connection that is new to its room, followed by its leave, restores the whole pool. */
  lemma PoolJoinThenLeave(v: View, peer: Peer, media: Media, w: View, err: Option<Error>,
                          x: View, left: Option<Error>)
    requires Occupied(v) && RoomFault(peer).None? && peer.id !in RoomOf(v, peer.room.value.roomId).peers
    requires PoolJoinStep(v, peer, media, w, err) && PoolLeaveStep(w, peer, x, left)
    ensures x == v && left == None
  {
    hide Meshed;
    hide JoinStep;
    var r := peer.room.value.roomId;
    RoomIsMeshed(v, r);
    JoinedMembers(RoomOf(v, r), peer, media, w[r], err);
    JoinThenLeave(RoomOf(v, r), peer, media, w[r], err, Left(w[r], peer.id), None);
    assert x == v;
  }
}
