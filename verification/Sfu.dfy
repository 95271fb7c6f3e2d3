/** The selective forwarding unit of a room, with its mesh of publishers and subscribers, and the pool of rooms. */
module Sfu {

  import opened Wrappers

  datatype Identity = Publisher | Subscriber | PubSub | Other(name: string)

  datatype Room = Room(roomId: string, identity: Identity)

  /** A peer connection: its id and the room it was made for, if any. */
  datatype Peer = Peer(id: string, room: Option<Room>)

  /** The errors of the source, and the panic of a join whose connection has no room. */
  datatype Error = NoRouter | NoRoomId | Exist | NotExist | TrackFailed | NilRoom

  /** A remote track of a publisher: whether a local track can be made of it, and be added to a subscriber. */
  datatype Track = Track(creatable: bool, addable: bool)

  /** The remote tracks of each publisher that has any. */
  type Media = map<string, seq<Track>>

  function TracksOf(media: Media, p: string): seq<Track> { if p in media then media[p] else [] }

  datatype State = State(
    peers: map<string, Peer>, publishers: map<string, map<string, Peer>>, subscribers: map<string, Peer>)

  const EMPTY := State(map[], map[], map[])

  predicate Publishes(p: Peer) { p.room.Some? && p.room.value.identity in {Publisher, PubSub} }

  predicate Subscribes(p: Peer) { p.room.Some? && p.room.value.identity in {Subscriber, PubSub} }

  // ----- one step -----

  /** The publishers a new subscriber is listed with. */
  function Targets(s: State, id: string): set<string>
  {
    set p | p in s.publishers && p != id && p in s.peers
  }

  function WithEntry(list: map<string, Peer>, peer: Peer): map<string, Peer>
  {
    if peer.id in list then list else list[peer.id := peer]
  }

  /** The publishers' lists once the new subscriber has been entered with the publishers in `visited`. */
  function Listed(publishers: map<string, map<string, Peer>>, visited: set<string>, peer: Peer)
    : map<string, map<string, Peer>>
  {
    map p | p in publishers :: if p in visited then WithEntry(publishers[p], peer) else publishers[p]
  }

  function Subscribed(s: State, peer: Peer, visited: set<string>): State
  {
    s.(subscribers := s.subscribers[peer.id := peer], publishers := Listed(s.publishers, visited, peer))
  }

  predicate AllCreatable(tracks: seq<Track>) { forall t | t in tracks :: t.creatable }

  predicate AllAddable(tracks: seq<Track>) { forall t | t in tracks :: t.addable }

  predicate CreatableAmong(media: Media, ps: set<string>) { forall p | p in ps :: AllCreatable(TracksOf(media, p)) }

  predicate AddableAmong(media: Media, ps: set<string>) { forall p | p in ps :: AllAddable(TracksOf(media, p)) }

  /** No track of the publishers in `targets` fails. */
  predicate Good(media: Media, targets: set<string>)
  {
    CreatableAmong(media, targets) && AddableAmong(media, targets)
  }

  ghost predicate SubscribeStep(s: State, peer: Peer, media: Media, t: State, err: Option<Error>)
  {
    if peer.id in s.subscribers then t == s && err == Some(Exist)
    else
      && err in {None, Some(TrackFailed)}
      && (err == None <==> Good(media, Targets(s, peer.id)))
      && exists visited ::
          && visited <= Targets(s, peer.id)
          && t == Subscribed(s, peer, visited)
          && (CreatableAmong(media, Targets(s, peer.id)) ==> visited == Targets(s, peer.id))
  }

  function Published(s: State, id: string): State
  {
    s.(publishers := s.publishers[id := s.subscribers - {id}])
  }

  ghost predicate JoinStep(s: State, peer: Peer, media: Media, t: State, err: Option<Error>)
  {
    if peer.id in s.peers then t == s && err == Some(Exist)
    else
      var a := s.(peers := s.peers[peer.id := peer]);
      if peer.room.None? then t == a && err == Some(NilRoom)
      else if Publishes(peer) && peer.id in s.publishers then t == a && err == Some(Exist)
      else
        var b := if Publishes(peer) then Published(a, peer.id) else a;
        if Subscribes(peer) then SubscribeStep(b, peer, media, t, err) else t == b && err == None
  }

  function Left(s: State, id: string): State
  {
    State(s.peers - {id}, map p | p in s.publishers && p != id :: s.publishers[p] - {id}, s.subscribers - {id})
  }

  ghost predicate LeaveStep(s: State, id: string, t: State, err: Option<Error>)
  {
    if id in s.peers then t == Left(s, id) && err == None else t == s && err == Some(NotExist)
  }

  // ----- the code -----

  lemma ListNone(publishers: map<string, map<string, Peer>>, visited: set<string>, peer: Peer)
    requires visited == {}
    ensures Listed(publishers, visited, peer) == publishers
  {
  }

  lemma ListOne(publishers: map<string, map<string, Peer>>, visited: set<string>, p: string, peer: Peer)
    requires p in publishers && p !in visited
    ensures Listed(publishers, visited, peer).Keys == publishers.Keys == Listed(publishers, visited + {p}, peer).Keys
    ensures var list := Listed(publishers, visited, peer);
            Listed(publishers, visited + {p}, peer) == list[p := WithEntry(list[p], peer)]
  {
  }

  function Delisted(publishers: map<string, map<string, Peer>>, visited: set<string>, id: string)
    : map<string, map<string, Peer>>
  {
    map p | p in publishers :: if p in visited then publishers[p] - {id} else publishers[p]
  }

  lemma DelistOne(publishers: map<string, map<string, Peer>>, visited: set<string>, p: string, id: string)
    requires p in publishers && p !in visited
    ensures Delisted(publishers, visited, id).Keys == publishers.Keys
    ensures var list := Delisted(publishers, visited, id);
            Delisted(publishers, visited + {p}, id) == list[p := list[p] - {id}]
  {
  }

  lemma DelistAll(publishers: map<string, map<string, Peer>>, visited: set<string>, id: string)
    requires visited == publishers.Keys
    ensures Delisted(publishers, visited, id) - {id} ==
            map p | p in publishers && p != id :: publishers[p] - {id}
  {
  }

  lemma OneMoreSeen(targets: set<string>, left: set<string>, p: string)
    requires p in left
    ensures targets - (left - {p}) == if p in targets then targets - left + {p} else targets - left
  {
  }

  lemma OneMoreAmong(media: Media, ps: set<string>, p: string)
    ensures CreatableAmong(media, ps + {p}) <==> CreatableAmong(media, ps) && AllCreatable(TracksOf(media, p))
    ensures AddableAmong(media, ps + {p}) <==> AddableAmong(media, ps) && AllAddable(TracksOf(media, p))
  {
  }

  lemma NoneAmong(media: Media)
    ensures CreatableAmong(media, {}) && AddableAmong(media, {})
  {
  }

  lemma AmongAll(media: Media, ps: set<string>, p: string)
    ensures p in ps && CreatableAmong(media, ps) ==> AllCreatable(TracksOf(media, p))
  {
  }

  lemma TargetIs(s: State, id: string, p: string)
    ensures p in Targets(s, id) <==> p in s.publishers && p != id && p in s.peers
  {
  }

  lemma TargetsWithin(s: State, id: string)
    ensures Targets(s, id) <= s.publishers.Keys && Targets(s, id) - s.publishers.Keys == {}
  {
  }

  lemma NoneAddable()
    ensures AllAddable([])
  {
  }

  lemma AddableBoth(a: seq<Track>, b: seq<Track>)
    ensures AllAddable(a + b) <==> AllAddable(a) && AllAddable(b)
  {
    forall t | t in a || t in b ensures t in a + b {
    }
  }

  class Sfu {
    const id: string
    var peerConnections: map<string, Peer>
    var publishers: map<string, map<string, Peer>>
    var subscribers: map<string, Peer>

    constructor (sfuId: string)
      ensures id == sfuId && Value() == EMPTY
    {
      id := sfuId;
      peerConnections, publishers, subscribers := map[], map[], map[];
    }

    function Value(): State
      reads this
    {
      State(peerConnections, publishers, subscribers)
    }

    method Join(peer: Peer, media: Media) returns (err: Option<Error>)
      modifies this
      ensures JoinStep(old(Value()), peer, media, Value(), err)
    {
      if peer.id in peerConnections {
        return Some(Exist);
      }
      peerConnections := peerConnections[peer.id := peer];
      if peer.room.None? {
        return Some(NilRoom);
      }
      if Publishes(peer) {
        err := Publish(peer);
        if err.Some? {
          return;
        }
      }
      if Subscribes(peer) {
        err := Subscribe(peer, media);
        return;
      }
      return None;
    }

    method Leave(peer: Peer) returns (err: Option<Error>)
      modifies this
      ensures LeaveStep(old(Value()), peer.id, Value(), err)
    {
      if peer.id !in peerConnections {
        return Some(NotExist);
      }
      ghost var was := publishers;
      var left := publishers.Keys;
      while left != {}
        invariant left <= was.Keys && publishers == Delisted(was, was.Keys - left, peer.id)
        invariant peerConnections == old(peerConnections) && subscribers == old(subscribers)
        decreases |left|
      {
        var p :| p in left;
        DelistOne(was, was.Keys - left, p, peer.id);
        assert was.Keys - left + {p} == was.Keys - (left - {p});
        publishers := publishers[p := publishers[p] - {peer.id}];
        left := left - {p};
      }
      DelistAll(was, was.Keys - left, peer.id);
      publishers := publishers - {peer.id};
      subscribers := subscribers - {peer.id};
      peerConnections := peerConnections - {peer.id};
      return None;
    }

    method Publish(peer: Peer) returns (err: Option<Error>)
      modifies this
      ensures if peer.id in peerConnections && peer.id !in old(publishers)
              then err == None && Value() == Published(old(Value()), peer.id)
              else err == Some(Exist) && Value() == old(Value())
    {
      if peer.id !in peerConnections || peer.id in publishers {
        return Some(Exist);
      }
      var list := map[];
      var left := subscribers.Keys;
      while left != {}
        invariant left <= subscribers.Keys
        invariant list == map k | k in subscribers && k !in left && k != peer.id :: subscribers[k]
        decreases |left|
      {
        var k :| k in left;
        left := left - {k};
        if k != peer.id {
          list := list[k := subscribers[k]];
        }
      }
      assert list == subscribers - {peer.id};
      publishers := publishers[peer.id := list];
      return None;
    }

    method Subscribe(peer: Peer, media: Media) returns (err: Option<Error>)
      requires peer.id in peerConnections
      modifies this
      ensures SubscribeStep(old(Value()), peer, media, Value(), err)
    {
      hide Listed;
      if peer.id in subscribers {
        return Some(Exist);
      }
      ghost var was := Value();
      subscribers := subscribers[peer.id := peer];
      var ok, locals;
      ghost var visited;
      ok, locals, visited := EnterLists(peer, media);
      assert Value() == Subscribed(was, peer, visited);
      if !ok {
        return Some(TrackFailed);
      }
      ok := AddTracks(locals);
      return if ok then None else Some(TrackFailed);
    }

    /** Enters a new subscriber with the publishers, in any order, up to the first track that cannot be created. */
    method EnterLists(peer: Peer, media: Media) returns (ok: bool, locals: seq<Track>, ghost visited: set<string>)
      modifies this`publishers
      ensures var targets := Targets(old(Value()), peer.id);
              && visited <= targets
              && publishers == Listed(old(publishers), visited, peer)
              && (ok <==> CreatableAmong(media, targets))
              && (ok ==> visited == targets)
              && (ok ==> (AllAddable(locals) <==> AddableAmong(media, targets)))
    {
      hide Targets;
      hide CreatableAmong;
      hide AddableAmong;
      hide Listed;
      hide WithEntry;
      hide AllAddable;
      hide AllCreatable;
      hide TracksOf;
      ghost var was := publishers;
      ghost var targets := Targets(Value(), peer.id);
      var left := publishers.Keys;
      locals, visited := [], {};
      ListNone(was, {}, peer);
      NoneAddable();
      NoneAmong(media);
      TargetsWithin(Value(), peer.id);
      while left != {}
        invariant left <= was.Keys == publishers.Keys
        invariant visited == targets - left
        invariant publishers == Listed(was, visited, peer)
        invariant CreatableAmong(media, visited)
        invariant AllAddable(locals) <==> AddableAmong(media, visited)
        decreases |left|
      {
        var p :| p in left;
        TargetIs(old(Value()), peer.id, p);
        OneMoreSeen(targets, left, p);
        left := left - {p};
        if p != peer.id && p in peerConnections {
          ListOne(was, visited, p, peer);
          OneMoreAmong(media, visited, p);
          AmongAll(media, targets, p);
          publishers := publishers[p := WithEntry(publishers[p], peer)];
          visited := visited + {p};
          ok := CreateTracks(TracksOf(media, p));
          if !ok {
            return;
          }
          AddableBoth(locals, TracksOf(media, p));
          locals := locals + TracksOf(media, p);
        }
      }
      assert targets - left == targets;
      ok := true;
    }

    /** Makes local tracks of a publisher's remote ones, up to the first failure. */
    static method CreateTracks(tracks: seq<Track>) returns (ok: bool)
      ensures ok == AllCreatable(tracks)
    {
      var i := 0;
      while i < |tracks|
        invariant i <= |tracks|
        invariant forall j | 0 <= j < i :: tracks[j].creatable
      {
        if !tracks[i].creatable {
          return false;
        }
        i := i + 1;
      }
      return true;
    }

    static method AddTracks(tracks: seq<Track>) returns (ok: bool)
      ensures ok == AllAddable(tracks)
    {
      var i := 0;
      while i < |tracks|
        invariant i <= |tracks|
        invariant forall j | 0 <= j < i :: tracks[j].addable
      {
        if !tracks[i].addable {
          return false;
        }
        i := i + 1;
      }
      return true;
    }
  }
}
