/** The two-level registry of peer connections, by peer id and then by client id. */
module PeerConnectionPool {

  import opened Wrappers

  const UNKNOWN_CLIENT_ID := "unknownClientId"

  /** How long a connection may stay unconnected before a sweep drops it. */
  const LIMIT := 20 * 3600

  class AdvancedPeerConnection {
    const peerId: string
    const initiator: bool
    var clientId: string
    var name: string
    var connected: bool
    var start: int

    constructor (peerId: string, initiator: bool, clientId: string, name: string)
      ensures this.peerId == peerId && this.initiator == initiator && this.clientId == clientId && this.name == name
      ensures !connected && start == 0
    {
      this.peerId, this.initiator, this.clientId, this.name := peerId, initiator, clientId, name;
      connected, start := false, 0;
    }

    predicate Overtime(now: int)
      reads this
    {
      !connected && now - start > LIMIT
    }
  }

  type Conns = map<string, AdvancedPeerConnection>

  type Registry = map<string, Conns>

  datatype Ids = Ids(peerId: string, clientId: string, name: string)

  datatype SignalKind = Offer | Answer | Candidate | OtherKind

  /** The direct two-key lookup. */
  function Find(r: Registry, p: string, c: string): AdvancedPeerConnection?
  {
    if p in r && c in r[p] then r[p][c] else null
  }

  predicate NoneEmpty(r: Registry) { forall p | p in r :: r[p] != map[] }

  /** Two registries without empty inner maps that agree on every two-key lookup are the same registry. */
  lemma FindDetermines(a: Registry, b: Registry)
    requires NoneEmpty(a) && NoneEmpty(b)
    requires forall p, c :: Find(a, p, c) == Find(b, p, c)
    ensures a == b
  {
    forall p
      ensures p in a ==> p in b && a[p].Keys <= b[p].Keys
      ensures p in b ==> p in a && b[p].Keys <= a[p].Keys
    {
      if p in a {
        forall c | c in a[p] ensures p in b && c in b[p] {
          assert Find(a, p, c) == Find(b, p, c);
        }
        var c :| c in a[p];
      }
      if p in b {
        forall c | c in b[p] ensures p in a && c in a[p] {
          assert Find(a, p, c) == Find(b, p, c);
        }
        var c :| c in b[p];
      }
    }
    forall p | p in a ensures a[p] == b[p] {
      forall c | c in a[p] ensures a[p][c] == b[p][c] {
        assert Find(a, p, c) == Find(b, p, c);
      }
    }
  }

  /** A removal: an empty client id stands for every client of the peer. */
  function Without(r: Registry, peerId: string, clientId: string): Registry
  {
    if peerId !in r || r[peerId] == map[] then r
    else
      var conns := if clientId == "" then map[] else r[peerId] - {clientId};
      if conns == map[] then r - {peerId} else r[peerId := conns]
  }

  function With(r: Registry, peerId: string, clientId: string, conn: AdvancedPeerConnection): Registry
  {
    var conns: Conns := if peerId in r then r[peerId] else map[];
    r[peerId := conns[clientId := conn]]
  }

  lemma FindWith(r: Registry, peerId: string, clientId: string, conn: AdvancedPeerConnection)
    ensures forall p, c :: Find(With(r, peerId, clientId, conn), p, c) ==
              if p == peerId && c == clientId then conn else Find(r, p, c)
    ensures NoneEmpty(r) ==> NoneEmpty(With(r, peerId, clientId, conn))
  {
    assert clientId in With(r, peerId, clientId, conn)[peerId];
  }

  /** The connections a removal takes out. */
  function Taken(r: Registry, peerId: string, clientId: string): Conns
  {
    if peerId !in r then map[]
    else if clientId == "" then r[peerId]
    else if clientId in r[peerId] then map[clientId := r[peerId][clientId]]
    else map[]
  }

  lemma PutThenRemoved(r: Registry, p: string, conns: Conns)
    ensures r[p := conns] - {p} == r - {p} && r - {p} - {p} == r - {p}
  {
  }

  lemma FindTaken(r: Registry, peerId: string, clientId: string)
    ensures var taken := Taken(r, peerId, clientId);
            && (forall c :: c in taken <==> (clientId == "" || c == clientId) && Find(r, peerId, c) != null)
            && forall c | c in taken :: taken[c] == Find(r, peerId, c)
  {
  }

  lemma FindWithout(r: Registry, peerId: string, clientId: string)
    ensures forall p, c :: Find(Without(r, peerId, clientId), p, c) ==
              if p == peerId && (clientId == "" || c == clientId) then null else Find(r, p, c)
    ensures NoneEmpty(r) ==> NoneEmpty(Without(r, peerId, clientId))
  {
    forall p, c
      ensures Find(Without(r, peerId, clientId), p, c) ==
              if p == peerId && (clientId == "" || c == clientId) then null else Find(r, p, c)
    {
      if p == peerId && p in r && c in r[p] && clientId != "" && c != clientId {
        assert c in r[peerId] - {clientId};
      }
    }
  }

  /** The registry once the connection of a peer that waited for its client id has been told it. */
  function Rekeyed(r: Registry, peerId: string, clientId: string): Registry
  {
    var waiting := Find(r, peerId, UNKNOWN_CLIENT_ID);
    if waiting == null then r else With(Without(r, peerId, UNKNOWN_CLIENT_ID), peerId, clientId, waiting)
  }

  /** The waiting connection replaces any that was under its new client id, and nothing else moves. */
  lemma FindRekeyed(r: Registry, peerId: string, clientId: string)
    requires Find(r, peerId, UNKNOWN_CLIENT_ID) != null
    ensures forall p, c :: Find(Rekeyed(r, peerId, clientId), p, c) ==
              if p == peerId && c == clientId then Find(r, peerId, UNKNOWN_CLIENT_ID)
              else if p == peerId && c == UNKNOWN_CLIENT_ID then null
              else Find(r, p, c)
    ensures NoneEmpty(r) ==> NoneEmpty(Rekeyed(r, peerId, clientId))
  {
    hide Find;
    hide With;
    hide Without;
    FindWithout(r, peerId, UNKNOWN_CLIENT_ID);
    FindWith(Without(r, peerId, UNKNOWN_CLIENT_ID), peerId, clientId, Find(r, peerId, UNKNOWN_CLIENT_ID));
  }

  lemma FindTrimmed(r: Registry, empty: set<string>)
    requires empty == set p | p in r && r[p] == map[]
    ensures NoneEmpty(r - empty) && forall p, c :: Find(r - empty, p, c) == Find(r, p, c)
  {
  }

  class PeerConnectionPool {
    var peerConnections: Registry

    /** All connections held, under whatever keys. */
    ghost function All(): set<AdvancedPeerConnection>
      reads this
    {
      set p, c | p in peerConnections && c in peerConnections[p] :: peerConnections[p][c]
    }

    /** Every connection is stored under its own ids, and no inner map is empty. */
    ghost predicate Valid()
      reads this, All()
    {
      && NoneEmpty(peerConnections)
      && forall p, c | p in peerConnections && c in peerConnections[p] :: Filed(peerConnections[p][c], p, c)
    }

    lemma FiledIsValid()
      requires NoneEmpty(peerConnections)
      requires forall p, c :: var conn := Find(peerConnections, p, c); conn != null ==> Filed(conn, p, c)
      ensures Valid()
    {
      assert forall p, c | p in peerConnections && c in peerConnections[p] ::
          peerConnections[p][c] == Find(peerConnections, p, c);
    }

    static ghost predicate Filed(conn: AdvancedPeerConnection, p: string, c: string)
      reads conn
    {
      conn.peerId == p && conn.clientId == c
    }

    constructor ()
      ensures Valid() && peerConnections == map[]
    {
      peerConnections := map[];
    }

    /** Scans the connections of a peer for a client id; in a valid pool that is the two-key lookup. */
    method GetOne(peerId: string, clientId: string) returns (conn: AdvancedPeerConnection?)
      ensures conn != null ==> conn in All() && conn.clientId == clientId
      ensures Valid() ==> conn == Find(peerConnections, peerId, clientId)
    {
      if peerId in peerConnections {
        var conns := peerConnections[peerId];
        var left := conns.Keys;
        while left != {}
          invariant left <= conns.Keys
          invariant forall c | c in conns && c !in left :: conns[c].clientId != clientId
          decreases |left|
        {
          var c :| c in left;
          if clientId == conns[c].clientId {
            assert conns[c] == Find(peerConnections, peerId, c);
            return conns[c];
          }
          left := left - {c};
        }
        assert clientId in conns ==> conns[clientId] == Find(peerConnections, peerId, clientId);
      }
      return null;
    }

    /** Stores a connection under the given ids, in place of the one that was there. */
    method Put(peerId: string, conn: AdvancedPeerConnection, clientId: string)
      modifies this
      ensures peerConnections == With(old(peerConnections), peerId, clientId, conn)
    {
      if peerId !in peerConnections {
        peerConnections := peerConnections[peerId := map[]];
      }
      var conns := peerConnections[peerId];
      peerConnections := peerConnections[peerId := conns[clientId := conn]];
    }

    /** Takes one connection of a peer out, or all of them when the client id is empty. */
    method Remove(peerId: string, clientId: string) returns (removed: Conns)
      modifies this
      ensures old(Valid()) ==> Valid()
      ensures peerConnections == Without(old(peerConnections), peerId, clientId)
      ensures forall c :: c in removed <==>
                (clientId == "" || c == clientId) && Find(old(peerConnections), peerId, c) != null
      ensures forall c | c in removed :: removed[c] == Find(old(peerConnections), peerId, c)
    {
      ghost var was, valid := peerConnections, Valid();
      assert valid ==> forall p, c :: var o := Find(was, p, c); o != null ==> Filed(o, p, c);
      removed := Detach(peerId, clientId);
      FindTaken(was, peerId, clientId);
      if valid {
        FindWithout(was, peerId, clientId);
        FiledIsValid();
      }
    }

    method Detach(peerId: string, clientId: string) returns (removed: Conns)
      modifies this
      ensures peerConnections == Without(old(peerConnections), peerId, clientId)
      ensures removed == Taken(old(peerConnections), peerId, clientId)
    {
      removed := map[];
      if peerId in peerConnections {
        var conns := peerConnections[peerId];
        if |conns| > 0 {
          if clientId == "" {
            removed := conns;
            peerConnections := peerConnections - {peerId};
          } else {
            if clientId in conns {
              removed := map[clientId := conns[clientId]];
            }
            conns := conns - {clientId};
            peerConnections := peerConnections[peerId := conns];
          }
          PutThenRemoved(old(peerConnections), peerId, conns);
          if |conns| == 0 {
            peerConnections := peerConnections - {peerId};
          }
        }
      }
    }

    /** Removes and closes; tells whether there was anything to close. */
    method Close(peerId: string, clientId: string) returns (closed: bool)
      modifies this
      ensures old(Valid()) ==> Valid()
      ensures peerConnections == Without(old(peerConnections), peerId, clientId)
      ensures closed <==> exists c ::
                (clientId == "" || c == clientId) && Find(old(peerConnections), peerId, c) != null
    {
      var removed := Remove(peerId, clientId);
      closed := removed != map[];
      if closed {
        var c :| c in removed;
      }
    }

    /** Replaces any connection under the ids by a new one of this side's making, unless its set-up fails; an
        empty client id that is in use closes every connection of the peer. */
    method Create(peerId: string, clientId: string, name: string, initOk: bool)
      returns (conn: AdvancedPeerConnection?)
      requires Valid()
      modifies this
      ensures Valid()
      ensures conn != null <==> initOk
      ensures conn != null ==> fresh(conn) && conn.initiator && conn.name == name && Find(peerConnections, peerId, clientId) == conn
      ensures !initOk ==> Find(peerConnections, peerId, clientId) == null
      ensures forall p, c | p != peerId || c != clientId :: Find(peerConnections, p, c) ==
                if p == peerId && clientId == "" && Find(old(peerConnections), peerId, clientId) != null then null else Find(old(peerConnections), p, c)
    {
      ghost var before := peerConnections;
      var was := GetOne(peerId, clientId);
      if was != null {
        var _ := Close(peerId, clientId);
        FindWithout(before, peerId, clientId);
      }
      conn := new AdvancedPeerConnection(peerId, true, clientId, name);
      if !initOk {
        FiledIsValid();
        return null;
      }
      FindWith(peerConnections, peerId, clientId, conn);
      Put(peerId, conn, clientId);
      FiledIsValid();
    }

    /** Finds the connection under the ids or stores a new one, which stays stored even when its set-up fails. */
    method CreateIfNotExist(peerId: string, clientId: string, name: string, initOk: bool)
      returns (conn: AdvancedPeerConnection?)
      requires Valid()
      modifies this
      ensures Valid()
      ensures var was := Find(old(peerConnections), peerId, clientId);
              && (was != null ==> conn == was && Find(peerConnections, peerId, clientId) == was)
              && (was == null ==> fresh(Find(peerConnections, peerId, clientId)) && !Find(peerConnections, peerId, clientId).initiator
                                  && Find(peerConnections, peerId, clientId).name == name
                                  && conn == if initOk then Find(peerConnections, peerId, clientId) else null)
      ensures forall p, c | p != peerId || c != clientId :: Find(peerConnections, p, c) == Find(old(peerConnections), p, c)
    {
      conn := GetOne(peerId, clientId);
      if conn == null {
        conn := new AdvancedPeerConnection(peerId, false, clientId, name);
        FindWith(peerConnections, peerId, clientId, conn);
        Put(peerId, conn, clientId);
        FiledIsValid();
        if !initOk {
          return null;
        }
      }
    }

    /** A first signal of a peer tells the client id that the connection to it was waiting for: the connection is
        filed anew, in place of any that was there. */
    method Rekey(peerId: string, clientId: string, name: string)
      requires Valid()
      modifies this, All()
      ensures Valid()
      ensures var waiting := Find(old(peerConnections), peerId, UNKNOWN_CLIENT_ID);
              && (forall p, c :: Find(peerConnections, p, c) ==
                    if waiting == null || p != peerId then Find(old(peerConnections), p, c)
                    else if c == clientId then waiting
                    else if c == UNKNOWN_CLIENT_ID then null
                    else Find(old(peerConnections), p, c))
              && (waiting != null ==> waiting.clientId == clientId && waiting.name == name)
              && forall o | o in old(All()) && o != waiting :: unchanged(o)
    {
      var conn := GetOne(peerId, UNKNOWN_CLIENT_ID);
      if conn != null {
        assert forall p, c :: var o := Find(peerConnections, p, c);
                 o != null ==> Filed(o, p, c) && o in All() && (o == conn ==> p == peerId && c == UNKNOWN_CLIENT_ID);
        conn.clientId := clientId;
        conn.name := name;
        FindRekeyed(peerConnections, peerId, clientId);
        Refile(peerId, clientId, conn);
      }
    }

    /** Moves a connection whose client id has just changed to where it now belongs. */
    method Refile(peerId: string, clientId: string, conn: AdvancedPeerConnection)
      requires NoneEmpty(peerConnections) && Find(peerConnections, peerId, UNKNOWN_CLIENT_ID) == conn
      requires Filed(conn, peerId, clientId)
      requires forall p, c :: var o := Find(peerConnections, p, c);
                 o != null ==> Filed(o, p, c) || (p == peerId && c == UNKNOWN_CLIENT_ID)
      modifies this
      ensures Valid() && peerConnections == Rekeyed(old(peerConnections), peerId, clientId)
    {
      hide Without;
      hide With;
      FindRekeyed(peerConnections, peerId, clientId);
      var _ := Remove(peerId, UNKNOWN_CLIENT_ID);
      Put(peerId, conn, clientId);
      FiledIsValid();
    }

    /** Handles a signal. The ids and the name in its extension replace those it came with. The connection that was
        filed, or was waiting, is served; one made for this very signal is not, since the source stores it in a
        variable of an inner block. */
    method OnWebrtcSignal(fromPeer: string, fromClient: string, extension: Option<Ids>, kind: SignalKind, initOk: bool)
      returns (served: AdvancedPeerConnection?, failed: bool)
      requires Valid()
      modifies this, All()
      ensures Valid()
      ensures var ids := if extension.Some? then extension.value else Ids(fromPeer, fromClient, "");
              var opens := kind == Offer || kind == Candidate;
              var waiting := Find(old(peerConnections), ids.peerId, "unknownClientId");
              var present := if waiting != null then waiting else Find(old(peerConnections), ids.peerId, ids.clientId);
              && (failed <==> present == null && opens && !initOk)
              && (waiting != null ==> waiting.clientId == ids.clientId && waiting.name == ids.name)
              && served == present
              && (present != null ==> Find(peerConnections, ids.peerId, ids.clientId) == present)
              && (present == null && opens ==> fresh(Find(peerConnections, ids.peerId, ids.clientId))
                                               && Find(peerConnections, ids.peerId, ids.clientId).name == ids.name)
              && (present == null && !opens ==> Find(peerConnections, ids.peerId, ids.clientId) == null)
              && forall p, c | p != ids.peerId || c != ids.clientId :: Find(peerConnections, p, c) ==
                   if p == ids.peerId && c == "unknownClientId" && waiting != null then null
                   else Find(old(peerConnections), p, c)
    {
      var peerId, clientId, name := fromPeer, fromClient, "";
      if extension.Some? {
        if peerId != extension.value.peerId {
          peerId := extension.value.peerId;
        }
        if clientId != extension.value.clientId {
          clientId := extension.value.clientId;
        }
        name := extension.value.name;
      }
      Rekey(peerId, clientId, name);
      served, failed := Serve(peerId, clientId, name, kind == Offer || kind == Candidate, initOk);
    }

    /** The second half of that method: find the connection of a signal, or make one if the signal opens one. */
    method Serve(peerId: string, clientId: string, name: string, opens: bool, initOk: bool)
      returns (served: AdvancedPeerConnection?, failed: bool)
      requires Valid()
      modifies this
      ensures Valid()
      ensures served == Find(old(peerConnections), peerId, clientId)
      ensures failed <==> served == null && opens && !initOk
      ensures var now := Find(peerConnections, peerId, clientId);
              if served == null && opens then fresh(now) && now.name == name else now == served
      ensures forall p, c | p != peerId || c != clientId :: Find(peerConnections, p, c) == Find(old(peerConnections), p, c)
    {
      failed := false;
      served := GetOne(peerId, clientId);
      if opens {
        var made := CreateIfNotExist(peerId, clientId, name, initOk);
        if made == null {
          failed := true;
        }
      }
    }

    /** Drops the connections that have stayed unconnected for too long, and the peers that lose all of theirs. */
    method Clear(now: int)
      requires Valid()
      modifies this
      ensures Valid()
      ensures forall p, c :: var was := Find(old(peerConnections), p, c);
              Find(peerConnections, p, c) == if was != null && !was.connected && now - was.start > 72000 then null else was
    {
      hide PartSwept;
      ghost var was := peerConnections;
      ghost var late := set o | o in All() && o.Overtime(now);
      forall p | p in was ensures Timely(was[p], now, late) {
        ValidIsTimely(p, now, late);
      }
      var empty := SweepPeers(now, late);
      DropPeers(empty);
      FindTrimmed(PartSwept(was, was.Keys, late), empty);
      FindSwept(was, late);
      assert forall p, c :: var o := Find(was, p, c); o != null ==> o in old(All());
      FiledIsValid();
    }

    method DropPeers(peers: set<string>)
      modifies this
      ensures peerConnections == old(peerConnections) - peers
    {
      ghost var was := peerConnections;
      var left := peers;
      while left != {}
        invariant left <= peers && peerConnections == was - (peers - left)
        decreases |left|
      {
        var p :| p in left;
        assert peers - (left - {p}) == peers - left + {p};
        left := left - {p};
        peerConnections := peerConnections - {p};
      }
      assert peers - left == peers;
    }

    /** Replaces every peer's connections by those that stay, and collects the peers left without any. */
    method SweepPeers(now: int, ghost late: set<AdvancedPeerConnection>) returns (empty: set<string>)
      requires forall p | p in peerConnections :: Timely(peerConnections[p], now, late)
      modifies this
      ensures peerConnections == PartSwept(old(peerConnections), old(peerConnections).Keys, late)
      ensures empty == set p | p in peerConnections && peerConnections[p] == map[]
    {
      hide PartSwept;
      hide Kept;
      hide EmptyOf;
      hide Timely;
      ghost var was := peerConnections;
      ghost var done := {};
      empty := {};
      var left := peerConnections.Keys;
      SweptNone(was, late);
      while left != {}
        invariant left <= was.Keys && done == was.Keys - left
        invariant peerConnections == PartSwept(was, done, late)
        invariant empty == EmptyOf(was, done, late)
        decreases |left|
      {
        var p :| p in left;
        SweptOne(was, done, late, p);
        left := left - {p};
        done := done + {p};
        var conns := Swept(peerConnections[p], now, late);
        peerConnections := peerConnections[p := conns];
        if |conns| == 0 {
          empty := empty + {p};
        }
      }
      assert done == was.Keys;
      SweptAll(was, late);
    }

    lemma ValidIsTimely(p: string, now: int, late: set<AdvancedPeerConnection>)
      requires Valid() && late == set o | o in All() && o.Overtime(now)
      requires p in peerConnections
      ensures Timely(peerConnections[p], now, late)
    {
      assert forall c | c in peerConnections[p] :: peerConnections[p][c] in All();
      assert forall c | c in peerConnections[p] :: Filed(peerConnections[p][c], p, c);
    }

    /** Each connection of a peer has its key as client id, and `late` tells which are overtime. */
    static ghost predicate Timely(conns: Conns, now: int, late: set<AdvancedPeerConnection>)
      reads conns.Values
    {
      forall c | c in conns :: conns[c].clientId == c && (conns[c] in late <==> conns[c].Overtime(now))
    }

    /** The connections of one peer without those that are overtime, deleted by their own client ids. */
    static method Swept(conns: Conns, now: int, ghost late: set<AdvancedPeerConnection>) returns (kept: Conns)
      requires Timely(conns, now, late)
      ensures kept == Kept(conns, late)
    {
      var ids := {};
      var left := conns.Keys;
      while left != {}
        invariant left <= conns.Keys
        invariant forall c :: c in ids <==> c in conns && c !in left && conns[c] in late
        decreases |left|
      {
        var c :| c in left;
        left := left - {c};
        if conns[c].Overtime(now) {
          ids := ids + {conns[c].clientId};
        }
      }
      kept := conns;
      left := ids;
      while left != {}
        invariant left <= ids && kept == map c | c in conns && c !in ids - left :: conns[c]
        decreases |left|
      {
        var c :| c in left;
        left := left - {c};
        kept := kept - {c};
      }
    }
  }

  // ----- sweeping on values -----

  ghost function Kept(conns: Conns, late: set<AdvancedPeerConnection>): Conns
  {
    map c | c in conns && conns[c] !in late :: conns[c]
  }

  /** The registry once the peers in `done` have been swept. */
  ghost function PartSwept(r: Registry, done: set<string>, late: set<AdvancedPeerConnection>): Registry
  {
    map p | p in r :: if p in done then Kept(r[p], late) else r[p]
  }

  /** The peers swept so far that are left without a connection. */
  ghost function EmptyOf(r: Registry, done: set<string>, late: set<AdvancedPeerConnection>): set<string>
  {
    set p | p in r && p in done && Kept(r[p], late) == map[]
  }

  lemma SweptNone(r: Registry, late: set<AdvancedPeerConnection>)
    ensures PartSwept(r, {}, late) == r && EmptyOf(r, {}, late) == {}
  {
  }

  lemma SweptOne(r: Registry, done: set<string>, late: set<AdvancedPeerConnection>, p: string)
    requires p in r && p !in done
    ensures p in PartSwept(r, done, late) && PartSwept(r, done, late)[p] == r[p]
    ensures PartSwept(r, done + {p}, late) == PartSwept(r, done, late)[p := Kept(r[p], late)]
    ensures EmptyOf(r, done + {p}, late) ==
            if Kept(r[p], late) == map[] then EmptyOf(r, done, late) + {p} else EmptyOf(r, done, late)
  {
  }

  lemma SweptAll(r: Registry, late: set<AdvancedPeerConnection>)
    ensures EmptyOf(r, r.Keys, late) ==
            var s := PartSwept(r, r.Keys, late); set p | p in s && s[p] == map[]
  {
  }

  lemma FindSwept(r: Registry, late: set<AdvancedPeerConnection>)
    ensures forall p, c :: var o := Find(r, p, c);
            Find(PartSwept(r, r.Keys, late), p, c) == if o != null && o in late then null else o
  {
  }
}
