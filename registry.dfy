/** The four dictionaries of the connection registry (Services/WebsocketManager.cs, and
    the identical prototype WebsocketManager.cs) as one value, with AddSocket and
    RemoveSocket as functions on it, branch for branch, and the lookups the fan-out uses.
    Services.WebsocketManager keeps these four maps as fields and is proved against
    these functions. */
module Registry {
  import opened Wrappers
  import opened Text
  import opened Lists
  import opened Transport

  type Owner = string
  type SocketId = string

  /** The exceptions AddSocket throws, in the order of its checks. */
  datatype AddError =
    | DifferentOwner         // the socket is registered to another owner
    | NoOwnerRecord          // the socket has an id but the id has no owner record
    | CannotAddSocket        // _sockets.TryAdd failed: the new id is taken
    | CannotAddOwnerRecord   // _ownersRemove.TryAdd failed

  datatype Registry = Registry(
    owners: map<Owner, seq<SocketId>>,      // _owners: owner -> socket ids
    ownersRemove: map<SocketId, Owner>,     // _ownersRemove: socket id -> owner
    sockets: map<SocketId, Socket>,         // _sockets: socket id -> socket
    socketsRemove: map<Socket, SocketId>)   // _socketsRemove: socket -> socket id

  const Empty: Registry := Registry(map[], map[], map[], map[])

  /** _socketsRemove is the inverse of _sockets. */
  predicate SocketsInverse(r: Registry) {
    && (forall s :: s in r.socketsRemove ==> r.socketsRemove[s] in r.sockets && r.sockets[r.socketsRemove[s]] == s)
    && (forall id :: id in r.sockets ==> r.sockets[id] in r.socketsRemove && r.socketsRemove[r.sockets[id]] == id)
  }

  /** _ownersRemove[id] == o exactly when id is in the list _owners[o]; lists hold no duplicates. */
  predicate OwnersInverse(r: Registry) {
    && (forall id :: id in r.ownersRemove ==> r.ownersRemove[id] in r.owners && id in r.owners[r.ownersRemove[id]])
    && (forall o :: o in r.owners ==> NoDup(r.owners[o]))
    && (forall o, id :: o in r.owners && id in r.owners[o] ==> id in r.ownersRemove && r.ownersRemove[id] == o)
  }

  /** The joint consistency of the four dictionaries. Generated ids are never empty. */
  predicate Valid(r: Registry) {
    && SocketsInverse(r)
    && OwnersInverse(r)
    && r.ownersRemove.Keys == r.sockets.Keys
    && "" !in r.sockets
  }

  predicate IsRegistered(r: Registry, s: Socket) {
    s in r.socketsRemove
  }

  /** GetSocketId: the socket's id, or null. */
  function IdOf(r: Registry, s: Socket): Option<SocketId> {
    if s in r.socketsRemove then Some(r.socketsRemove[s]) else None
  }

  /** GetSocketOwner: null unless the socket has a non-empty id with an owner record. */
  function OwnerOf(r: Registry, s: Socket): Option<Owner> {
    match IdOf(r, s)
    case None => None
    case Some(id) => if id != "" && id in r.ownersRemove then Some(r.ownersRemove[id]) else None
  }

  /** AddSocket(socket, owner), with freshId standing for Guid.NewGuid(). */
  function Add(r: Registry, socket: Socket, owner: Owner, freshId: SocketId): (Result<bool, AddError>, Registry) {
    if socket in r.socketsRemove then
      var existingId := r.socketsRemove[socket];
      if existingId in r.ownersRemove then
        if EqualsIgnoreCase(owner, r.ownersRemove[existingId]) then (Ok(true), r)
        else (Err(DifferentOwner), r)
      else (Err(NoOwnerRecord), r)
    else if freshId in r.sockets then (Err(CannotAddSocket), r)
    else
      var r1 := r.(sockets := r.sockets[freshId := socket], socketsRemove := r.socketsRemove[socket := freshId]);
      if owner in r.owners then
        var r2 := r1.(owners := r.owners[owner := r.owners[owner] + [freshId]]);
        if freshId in r.ownersRemove then (Err(CannotAddOwnerRecord), r2)
        else (Ok(true), r2.(ownersRemove := r.ownersRemove[freshId := owner]))
      else
        var r2 := r1.(owners := r.owners[owner := [freshId]]);
        if freshId in r.ownersRemove then (Err(CannotAddOwnerRecord), r2)
        else (Ok(true), r2.(ownersRemove := r.ownersRemove[freshId := owner]))
  }

  /** RemoveSocket(socket): the nested TryRemove chain; it stops, returning false, at the
      first dictionary that lacks the expected entry, keeping what it already removed. */
  function Remove(r: Registry, socket: Socket): (bool, Registry) {
    if socket !in r.socketsRemove then (false, r)
    else
      var id := r.socketsRemove[socket];
      var r1 := r.(socketsRemove := r.socketsRemove - {socket});
      if id !in r1.sockets then (false, r1)
      else
        var r2 := r1.(sockets := r1.sockets - {id});
        if id !in r2.ownersRemove then (false, r2)
        else
          var owner := r2.ownersRemove[id];
          var r3 := r2.(ownersRemove := r2.ownersRemove - {id});
          if owner !in r3.owners || id !in r3.owners[owner] then (false, r3)
          else (true, r3.(owners := r3.owners[owner := RemoveFirst(r3.owners[owner], id)]))
  }

  /** The ids of a list that are in _sockets, resolved to their sockets, in list order. */
  function Resolve(ids: seq<SocketId>, sockets: map<SocketId, Socket>): seq<Socket> {
    if ids == [] then []
    else
      var last := ids[|ids| - 1];
      Resolve(ids[..|ids| - 1], sockets) + if last in sockets then [sockets[last]] else []
  }

  /** GetSocketsByRecipient (and the prototype's GetSocketsByOwner): every socket of the
      owner's list that is in _sockets. Their state test `socket != null || ...` is true
      of every socket, so no state is looked at. */
  function SocketsOf(r: Registry, owner: Owner): seq<Socket> {
    if owner in r.owners then Resolve(r.owners[owner], r.sockets) else []
  }

  function FilterOpen(xs: seq<Socket>, state: map<Socket, WsState>): seq<Socket> {
    if xs == [] then []
    else
      var last := xs[|xs| - 1];
      FilterOpen(xs[..|xs| - 1], state) + if StateIn(state, last) == Open then [last] else []
  }

  /** GetSockets: the owner's sockets that are Open. */
  function OpenSocketsOf(r: Registry, state: map<Socket, WsState>, owner: Owner): seq<Socket> {
    FilterOpen(SocketsOf(r, owner), state)
  }

  /** GetSocketsByRecipients: the recipients' sockets, recipient after recipient. */
  function SocketsOfAll(r: Registry, recipients: seq<Owner>): seq<Socket> {
    if recipients == [] then []
    else SocketsOfAll(r, recipients[..|recipients| - 1]) + SocketsOf(r, recipients[|recipients| - 1])
  }

  // ---------------------------------------------------------------- AddSocket

  /** Registering an already registered socket changes nothing: it succeeds for the same
      owner in any letter case and throws for any other owner. */
  lemma AddRegistered(r: Registry, s: Socket, owner: Owner, freshId: SocketId)
    requires Valid(r) && IsRegistered(r, s)
    ensures OwnerOf(r, s).Some?
    ensures Add(r, s, owner, freshId).1 == r
    ensures Add(r, s, owner, freshId).0
         == if EqualsIgnoreCase(owner, OwnerOf(r, s).value) then Ok(true) else Err(DifferentOwner)
  {
    assert r.socketsRemove[s] in r.sockets;
  }

  /** The ids registered to an owner; an owner without a key has none. */
  function IdsOf(r: Registry, owner: Owner): seq<SocketId> {
    if owner in r.owners then r.owners[owner] else []
  }

  /** The registry with a new socket entered under an id, in all four maps. */
  function Inserted(r: Registry, s: Socket, owner: Owner, id: SocketId): Registry {
    Registry(r.owners[owner := IdsOf(r, owner) + [id]], r.ownersRemove[id := owner],
             r.sockets[id := s], r.socketsRemove[s := id])
  }

  /** A new socket under a fresh id succeeds and enters exactly the new entries. */
  lemma AddFresh(r: Registry, s: Socket, owner: Owner, freshId: SocketId)
    requires Valid(r) && !IsRegistered(r, s) && freshId !in r.sockets
    ensures Add(r, s, owner, freshId) == (Ok(true), Inserted(r, s, owner, freshId))
  {
    assert freshId !in r.ownersRemove;
    assert [] + [freshId] == [freshId];
  }

  lemma InsertedSocketsInverse(r: Registry, s: Socket, owner: Owner, freshId: SocketId)
    requires SocketsInverse(r) && !IsRegistered(r, s) && freshId !in r.sockets
    ensures SocketsInverse(Inserted(r, s, owner, freshId))
  {
  }

  lemma InsertedOwnersInverse(r: Registry, s: Socket, owner: Owner, freshId: SocketId)
    requires OwnersInverse(r) && freshId !in r.ownersRemove
    ensures OwnersInverse(Inserted(r, s, owner, freshId))
  {
    var r' := Inserted(r, s, owner, freshId);
    var ids := IdsOf(r, owner);
    assert freshId !in ids;
    AppendAbsentNoDup(ids, freshId);
    forall o, id | o in r'.owners && id in r'.owners[o]
      ensures id in r'.ownersRemove && r'.ownersRemove[id] == o
    {
      if o == owner && id !in ids {
        assert id == freshId;
      }
    }
  }

  /** The insertion keeps the registry valid, gives the new socket its owner and leaves
      every other socket's owner alone. */
  lemma InsertedValid(r: Registry, s: Socket, owner: Owner, freshId: SocketId)
    requires Valid(r) && !IsRegistered(r, s) && freshId != "" && freshId !in r.sockets
    ensures Valid(Inserted(r, s, owner, freshId))
    ensures OwnerOf(Inserted(r, s, owner, freshId), s) == Some(owner)
    ensures forall t :: t != s ==> OwnerOf(Inserted(r, s, owner, freshId), t) == OwnerOf(r, t)
  {
    var r' := Inserted(r, s, owner, freshId);
    assert freshId !in r.ownersRemove;
    InsertedSocketsInverse(r, s, owner, freshId);
    InsertedOwnersInverse(r, s, owner, freshId);
    assert r'.ownersRemove.Keys == r.ownersRemove.Keys + {freshId};
    assert r'.sockets.Keys == r.sockets.Keys + {freshId};
    InsertedOwnerOf(r, s, owner, freshId);
  }

  lemma InsertedOwnerOf(r: Registry, s: Socket, owner: Owner, freshId: SocketId)
    requires SocketsInverse(r) && !IsRegistered(r, s) && freshId != "" && freshId !in r.sockets
    ensures OwnerOf(Inserted(r, s, owner, freshId), s) == Some(owner)
    ensures forall t :: t != s ==> OwnerOf(Inserted(r, s, owner, freshId), t) == OwnerOf(r, t)
  {
    var r' := Inserted(r, s, owner, freshId);
    forall t | t != s ensures OwnerOf(r', t) == OwnerOf(r, t) {
      if t in r.socketsRemove {
        assert r.socketsRemove[t] != freshId;
      }
    }
  }

  // ---------------------------------------------------------------- RemoveSocket

  /** Removing an unregistered socket reports false and changes nothing. */
  lemma RemoveUnregistered(r: Registry, s: Socket)
    requires !IsRegistered(r, s)
    ensures Remove(r, s) == (false, r)
  {
  }

  /** The registry with a socket's entries taken out of all four maps; its owner keeps
      a (possibly empty) list without the id. */
  function Deleted(r: Registry, s: Socket, id: SocketId, owner: Owner): Registry
    requires owner in r.owners
  {
    Registry(r.owners[owner := RemoveFirst(r.owners[owner], id)], r.ownersRemove - {id},
             r.sockets - {id}, r.socketsRemove - {s})
  }

  /** In a valid registry the id and the owner of a registered socket are on record. */
  lemma RegisteredHasOwner(r: Registry, s: Socket)
    requires Valid(r) && IsRegistered(r, s)
    ensures var id := r.socketsRemove[s];
      && id in r.sockets && id in r.ownersRemove && r.ownersRemove[id] in r.owners
      && id in r.owners[r.ownersRemove[id]]
      && OwnerOf(r, s) == Some(r.ownersRemove[id])
  {
    assert r.socketsRemove[s] in r.sockets;
  }

  /** Removing a registered socket of a valid registry succeeds and takes away exactly its entries. */
  lemma RemoveRegistered(r: Registry, s: Socket)
    requires Valid(r) && IsRegistered(r, s)
    ensures var id := r.socketsRemove[s];
      id in r.ownersRemove && r.ownersRemove[id] in r.owners &&
      Remove(r, s) == (true, Deleted(r, s, id, r.ownersRemove[id]))
  {
    RegisteredHasOwner(r, s);
  }

  lemma DeletedOwnersInverse(r: Registry, id: SocketId, owner: Owner)
    requires OwnersInverse(r) && id in r.ownersRemove && r.ownersRemove[id] == owner
    ensures forall s :: OwnersInverse(Deleted(r, s, id, owner))
  {
    RemoveFirstNoDup(r.owners[owner], id);
    forall s, o2, id2 | var r' := Deleted(r, s, id, owner); o2 in r'.owners && id2 in r'.owners[o2]
      ensures var r' := Deleted(r, s, id, owner); id2 in r'.ownersRemove && r'.ownersRemove[id2] == o2
    {
      if o2 == owner {
        assert id2 != id && id2 in r.owners[owner];
      }
    }
  }

  /** The removal keeps the registry valid, forgets the socket and leaves every other
      socket's owner alone. */
  lemma DeletedValid(r: Registry, s: Socket)
    requires Valid(r) && IsRegistered(r, s)
    ensures var id := r.socketsRemove[s];
      id in r.ownersRemove && r.ownersRemove[id] in r.owners &&
      var r' := Deleted(r, s, id, r.ownersRemove[id]);
      && Valid(r')
      && OwnerOf(r', s) == None
      && forall t :: t != s ==> OwnerOf(r', t) == OwnerOf(r, t)
  {
    RegisteredHasOwner(r, s);
    var id := r.socketsRemove[s];
    var owner := r.ownersRemove[id];
    var r' := Deleted(r, s, id, owner);
    DeletedOwnersInverse(r, id, owner);
    DeletedSocketsInverse(r, s, owner);
    DeletedOwnerOf(r, s, owner);
    assert r'.ownersRemove.Keys == r.ownersRemove.Keys - {id};
    assert r'.sockets.Keys == r.sockets.Keys - {id};
  }

  lemma DeletedSocketsInverse(r: Registry, s: Socket, owner: Owner)
    requires SocketsInverse(r) && IsRegistered(r, s) && owner in r.owners
    ensures SocketsInverse(Deleted(r, s, r.socketsRemove[s], owner))
  {
    var r' := Deleted(r, s, r.socketsRemove[s], owner);
    assert SocketsInverse(r');
  }

  lemma DeletedOwnerOf(r: Registry, s: Socket, owner: Owner)
    requires SocketsInverse(r) && IsRegistered(r, s) && owner in r.owners
    ensures var r' := Deleted(r, s, r.socketsRemove[s], owner);
      && OwnerOf(r', s) == None
      && forall t :: t != s ==> OwnerOf(r', t) == OwnerOf(r, t)
  {
    var r' := Deleted(r, s, r.socketsRemove[s], owner);
    forall t | t != s ensures OwnerOf(r', t) == OwnerOf(r, t) {
      if t in r.socketsRemove {
        assert r.sockets[r.socketsRemove[t]] == t;
      }
    }
  }

  lemma RemoveInserted(r: Registry, s: Socket, owner: Owner, id: SocketId)
    ensures Remove(Inserted(r, s, owner, id), s) == (true, Deleted(Inserted(r, s, owner, id), s, id, owner))
  {
  }

  lemma DeletedInserted(r: Registry, s: Socket, owner: Owner, id: SocketId)
    requires s !in r.socketsRemove && id !in r.sockets && id !in r.ownersRemove && id !in IdsOf(r, owner)
    ensures Deleted(Inserted(r, s, owner, id), s, id, owner) == r.(owners := r.owners[owner := IdsOf(r, owner)])
  {
    RemoveFirstAppendAbsent(IdsOf(r, owner), id);
    UpdateThenSubtract(r.sockets, id, s);
    UpdateThenSubtract(r.socketsRemove, s, id);
    UpdateThenSubtract(r.ownersRemove, id, owner);
  }

  /** Registering a new socket and removing it again restores the registry, except that
      the owner's key stays behind, possibly with an empty list. */
  lemma AddThenRemove(r: Registry, s: Socket, owner: Owner, freshId: SocketId)
    requires Valid(r) && !IsRegistered(r, s) && freshId !in r.sockets
    ensures Remove(Add(r, s, owner, freshId).1, s) == (true, r.(owners := r.owners[owner := IdsOf(r, owner)]))
  {
    AddFresh(r, s, owner, freshId);
    RemoveInserted(r, s, owner, freshId);
    assert freshId !in r.ownersRemove;
    assert freshId !in IdsOf(r, owner);
    DeletedInserted(r, s, owner, freshId);
  }

  // ---------------------------------------------------------------- lookups

  /** Resolving ids through a map whose inverse is inv counts a socket once per
      occurrence of its id. */
  lemma {:induction false} ResolveCount(ids: seq<SocketId>, m: map<SocketId, Socket>, inv: map<Socket, SocketId>, s: Socket)
    requires forall id :: id in m ==> m[id] in inv && inv[m[id]] == id
    requires forall t :: t in inv ==> inv[t] in m && m[inv[t]] == t
    ensures Count(Resolve(ids, m), s) == if s in inv then Count(ids, inv[s]) else 0
  {
    if ids != [] {
      var init, last := ids[..|ids| - 1], ids[|ids| - 1];
      var tail := if last in m then [m[last]] else [];
      ResolveCount(init, m, inv, s);
      CountAppend(Resolve(init, m), tail, s);
      assert ids == init + [last];
      if s in inv {
        CountAppend(init, [last], inv[s]);
      }
    }
  }

  /** Each socket appears in its owner's lookup exactly once and in no other owner's. */
  lemma SocketsOfCount(r: Registry, owner: Owner, s: Socket)
    requires Valid(r)
    ensures Count(SocketsOf(r, owner), s) == if OwnerOf(r, s) == Some(owner) then 1 else 0
  {
    if owner in r.owners {
      ResolveCount(r.owners[owner], r.sockets, r.socketsRemove, s);
      if s in r.socketsRemove {
        var id := r.socketsRemove[s];
        assert id in r.sockets && id in r.ownersRemove;
        CountNoDup(r.owners[owner], id);
      }
    } else if s in r.socketsRemove {
      assert r.socketsRemove[s] in r.ownersRemove;
    }
  }

  /** GetSocketsByRecipient yields the owner's sockets, each once. */
  lemma SocketsOfMeans(r: Registry, owner: Owner)
    requires Valid(r)
    ensures forall s :: s in SocketsOf(r, owner) <==> OwnerOf(r, s) == Some(owner)
    ensures NoDup(SocketsOf(r, owner))
  {
    forall s ensures Count(SocketsOf(r, owner), s) <= 1
      && (s in SocketsOf(r, owner) <==> OwnerOf(r, s) == Some(owner))
    {
      SocketsOfCount(r, owner, s);
      CountMembership(SocketsOf(r, owner), s);
    }
    CountAtMostOneIsNoDup(SocketsOf(r, owner));
  }

  lemma {:induction false} FilterOpenCount(xs: seq<Socket>, state: map<Socket, WsState>, s: Socket)
    ensures Count(FilterOpen(xs, state), s) == if StateIn(state, s) == Open then Count(xs, s) else 0
  {
    if xs != [] {
      var init, last := xs[..|xs| - 1], xs[|xs| - 1];
      var tail := if StateIn(state, last) == Open then [last] else [];
      FilterOpenCount(init, state, s);
      CountAppend(FilterOpen(init, state), tail, s);
      assert xs == init + [last];
      CountAppend(init, [last], s);
    }
  }

  /** GetSockets yields the owner's Open sockets, each once. */
  lemma OpenSocketsOfMeans(r: Registry, state: map<Socket, WsState>, owner: Owner)
    requires Valid(r)
    ensures forall s :: s in OpenSocketsOf(r, state, owner)
                    <==> OwnerOf(r, s) == Some(owner) && StateIn(state, s) == Open
    ensures NoDup(OpenSocketsOf(r, state, owner))
  {
    forall s ensures Count(OpenSocketsOf(r, state, owner), s) <= 1
      && (s in OpenSocketsOf(r, state, owner) <==> OwnerOf(r, s) == Some(owner) && StateIn(state, s) == Open)
    {
      FilterOpenCount(SocketsOf(r, owner), state, s);
      SocketsOfCount(r, owner, s);
      CountMembership(OpenSocketsOf(r, state, owner), s);
    }
    CountAtMostOneIsNoDup(OpenSocketsOf(r, state, owner));
  }

  /** GetSocketsByRecipients yields a socket once per time its owner is listed: a
      recipient listed twice has its sockets twice. */
  lemma {:induction false} SocketsOfAllCount(r: Registry, recipients: seq<Owner>, s: Socket)
    requires Valid(r)
    ensures Count(SocketsOfAll(r, recipients), s)
         == if OwnerOf(r, s).Some? then Count(recipients, OwnerOf(r, s).value) else 0
  {
    if recipients != [] {
      var init, last := recipients[..|recipients| - 1], recipients[|recipients| - 1];
      SocketsOfCount(r, last, s);
      SocketsOfAllCount(r, init, s);
      CountAppend(SocketsOfAll(r, init), SocketsOf(r, last), s);
      assert recipients == init + [last];
      if OwnerOf(r, s).Some? {
        CountAppend(init, [last], OwnerOf(r, s).value);
      }
    }
  }

  lemma SocketsOfAllMeans(r: Registry, recipients: seq<Owner>, s: Socket)
    requires Valid(r)
    ensures s in SocketsOfAll(r, recipients) <==> OwnerOf(r, s).Some? && OwnerOf(r, s).value in recipients
  {
    SocketsOfAllCount(r, recipients, s);
    CountMembership(SocketsOfAll(r, recipients), s);
    if OwnerOf(r, s).Some? {
      CountMembership(recipients, OwnerOf(r, s).value);
    }
  }

  /** After RemoveSocket no lookup yields the socket any more. */
  lemma RemovedIsUnreachable(r: Registry, s: Socket, owner: Owner)
    requires Valid(r) && IsRegistered(r, s)
    ensures s !in SocketsOf(Remove(r, s).1, owner)
  {
    RemoveRegistered(r, s);
    DeletedValid(r, s);
    SocketsOfMeans(Remove(r, s).1, owner);
  }

  /** Resolving a list of ids yields exactly the sockets the listed ids map to. */
  lemma {:induction false} ResolveMembers(ids: seq<SocketId>, m: map<SocketId, Socket>, s: Socket)
    ensures s in Resolve(ids, m) <==> exists k :: k in ids && k in m && m[k] == s
  {
    if ids != [] {
      var init, last := ids[..|ids| - 1], ids[|ids| - 1];
      ResolveMembers(init, m, s);
      assert ids == init + [last];
      assert forall k :: k in ids <==> k in init || k == last;
    }
  }

  /** Resolving two lists one after the other is resolving their concatenation. */
  lemma {:induction false} ResolveAppend(a: seq<SocketId>, b: seq<SocketId>, m: map<SocketId, Socket>)
    ensures Resolve(a + b, m) == Resolve(a, m) + Resolve(b, m)
    decreases |b|
  {
    if b == [] {
      assert a + b == a;
    } else {
      var init, last := b[..|b| - 1], b[|b| - 1];
      assert (a + b)[..|a + b| - 1] == a + init;
      ResolveAppend(a, init, m);
    }
  }
}
