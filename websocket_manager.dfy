/** The connection registry and message fan-out (Services/WebsocketManager.cs): the four
    dictionaries as fields, registration and removal proved against the functions of
    module Registry, and the send and broadcast operations proved against Deliver. */
module Services {
  import opened Wrappers
  import opened Text
  import opened Lists
  import opened Transport
  import opened Registry

  /** The sockets BroadcastAsync writes to: the recipients' sockets, less the excluded ones
      when there are any (Enumerable.Except, which also drops repeats). No recipients, no sockets. */
  function BroadcastTargets(m: Registry, recipients: seq<Owner>, exceptSockets: seq<Socket>): seq<Socket> {
    if recipients == [] then []
    else if exceptSockets != [] then Except(SocketsOfAll(m, recipients), exceptSockets)
    else SocketsOfAll(m, recipients)
  }

  /** The sockets BroadcastToAllAsync writes to, given the order in which the owner keys
      are enumerated: the owners less the excluded ones, then their sockets less the excluded ones. */
  function BroadcastAllTargets(m: Registry, keys: seq<Owner>, exceptRecipients: seq<Owner>,
                               exceptSockets: seq<Socket>): seq<Socket> {
    var recipients := if exceptRecipients != [] then Except(keys, exceptRecipients) else keys;
    if recipients == [] then []
    else if exceptSockets != [] then Except(SocketsOfAll(m, recipients), exceptSockets)
    else SocketsOfAll(m, recipients)
  }

  /** The sockets SendAsync(data, recipient) writes to. */
  function RecipientTargets(m: Registry, data: string, recipient: Option<Owner>): seq<Socket> {
    if IsNullOrEmpty(recipient) || data == "" then [] else SocketsOf(m, recipient.value)
  }

  /** A broadcast reaches each socket of a listed recipient that is not excluded; with
      exclusions each such socket is targeted once, without them once per listing of its owner. */
  lemma BroadcastTargetsMeans(m: Registry, recipients: seq<Owner>, exceptSockets: seq<Socket>, s: Socket)
    requires Valid(m)
    ensures s in BroadcastTargets(m, recipients, exceptSockets)
        <==> OwnerOf(m, s).Some? && OwnerOf(m, s).value in recipients && s !in exceptSockets
    ensures exceptSockets != [] ==> NoDup(BroadcastTargets(m, recipients, exceptSockets))
    ensures exceptSockets == [] && OwnerOf(m, s).Some?
        ==> Count(BroadcastTargets(m, recipients, exceptSockets), s) == Count(recipients, OwnerOf(m, s).value)
  {
    SocketsOfAllMeans(m, recipients, s);
    if recipients != [] {
      if exceptSockets != [] {
        ExceptMembers(SocketsOfAll(m, recipients), exceptSockets, s);
      } else {
        SocketsOfAllCount(m, recipients, s);
      }
    }
  }

  /** A broadcast to all reaches every registered socket whose owner and which itself are
      not excluded, each exactly once, whatever the order of the owner keys. */
  lemma BroadcastAllTargetsMeans(m: Registry, keys: seq<Owner>, exceptRecipients: seq<Owner>,
                                 exceptSockets: seq<Socket>, s: Socket)
    requires Valid(m) && NoDup(keys) && forall o :: o in keys <==> o in m.owners
    ensures s in BroadcastAllTargets(m, keys, exceptRecipients, exceptSockets)
        <==> OwnerOf(m, s).Some? && OwnerOf(m, s).value !in exceptRecipients && s !in exceptSockets
    ensures Count(BroadcastAllTargets(m, keys, exceptRecipients, exceptSockets), s) <= 1
  {
    var recipients := if exceptRecipients != [] then Except(keys, exceptRecipients) else keys;
    var targets := BroadcastAllTargets(m, keys, exceptRecipients, exceptSockets);
    if OwnerOf(m, s).Some? {
      var o := OwnerOf(m, s).value;
      RegisteredHasOwner(m, s);
      if exceptRecipients != [] {
        ExceptMembers(keys, exceptRecipients, o);
      }
      assert NoDup(recipients);
      CountNoDup(recipients, o);
    }
    SocketsOfAllMeans(m, recipients, s);
    SocketsOfAllCount(m, recipients, s);
    if recipients != [] && exceptSockets != [] {
      ExceptMembers(SocketsOfAll(m, recipients), exceptSockets, s);
      CountNoDup(targets, s);
    }
    CountMembership(targets, s);
  }

  class WebsocketManager {
    var owners: map<Owner, seq<SocketId>>
    var ownersRemove: map<SocketId, Owner>
    var sockets: map<SocketId, Socket>
    var socketsRemove: map<Socket, SocketId>

    function Model(): Registry reads this {
      Registry(owners, ownersRemove, sockets, socketsRemove)
    }

    /** The class invariant: the four dictionaries agree. */
    predicate Consistent() reads this {
      Valid(Model())
    }

    constructor ()
      ensures Model() == Empty && Consistent()
    {
      owners, ownersRemove, sockets, socketsRemove := map[], map[], map[], map[];
    }

    /** AddSocket; newGuid is the value of Guid.NewGuid().ToString(). */
    method AddSocket(socket: Socket, recipient: Owner, newGuid: string) returns (r: Result<bool, AddError>)
      requires Consistent() && IsHyphenatedGuid(newGuid)
      modifies this
      ensures Consistent()
      ensures (r, Model()) == Add(old(Model()), socket, recipient, newGuid)
      ensures r.Ok? ==> OwnerOf(Model(), socket).Some? && EqualsIgnoreCase(recipient, OwnerOf(Model(), socket).value)
      ensures r.Err? ==> Model() == old(Model()) && (r == Err(DifferentOwner) || r == Err(CannotAddSocket))
    {
      ghost var m0 := Model();
      if socket in socketsRemove {
        RegisteredHasOwner(m0, socket);
        AddRegistered(m0, socket, recipient, newGuid);
        var existingId := socketsRemove[socket];
        // a socket id always has an owner record here
        assert existingId in ownersRemove;
        if EqualsIgnoreCase(recipient, ownersRemove[existingId]) {
          return Ok(true);
        } else {
          return Err(DifferentOwner);
        }
      }
      var socketId := newGuid;
      if socketId in sockets {
        return Err(CannotAddSocket);
      }
      assert socketId !in m0.ownersRemove;
      AddFresh(m0, socket, recipient, socketId);
      InsertedValid(m0, socket, recipient, socketId);
      sockets := sockets[socketId := socket];
      // _socketsRemove.TryAdd cannot fail: the socket was looked up above
      socketsRemove := socketsRemove[socket := socketId];
      if recipient in owners {
        owners := owners[recipient := owners[recipient] + [socketId]];
      } else {
        assert [] + [socketId] == [socketId];
        owners := owners[recipient := [socketId]];
      }
      assert owners == m0.owners[recipient := IdsOf(m0, recipient) + [socketId]];
      // _ownersRemove.TryAdd cannot fail: its keys are those of _sockets
      ownersRemove := ownersRemove[socketId := recipient];
      assert Model() == Inserted(m0, socket, recipient, socketId);
      r := Ok(true);
    }

    /** RemoveSocket: true exactly when the socket was registered; afterwards it is not. */
    method RemoveSocket(socket: Socket) returns (ok: bool)
      requires Consistent()
      modifies this
      ensures Consistent()
      ensures (ok, Model()) == Remove(old(Model()), socket)
      ensures ok <==> old(IsRegistered(Model(), socket))
      ensures OwnerOf(Model(), socket) == None
      ensures forall t :: t != socket ==> OwnerOf(Model(), t) == old(OwnerOf(Model(), t))
    {
      ghost var m0 := Model();
      if socket !in socketsRemove {
        return false;
      }
      RemoveRegistered(m0, socket);
      DeletedValid(m0, socket);
      var socketId := socketsRemove[socket];
      socketsRemove := socketsRemove - {socket};
      assert socketId in sockets;
      sockets := sockets - {socketId};
      assert socketId in ownersRemove;
      var owner := ownersRemove[socketId];
      ownersRemove := ownersRemove - {socketId};
      assert owner in owners && socketId in owners[owner];
      owners := owners[owner := RemoveFirst(owners[owner], socketId)];
      ok := true;
    }

    /** KillSocket: for now only RemoveSocket. */
    method KillSocket(socket: Socket) returns (ok: bool)
      requires Consistent()
      modifies this
      ensures Consistent()
      ensures (ok, Model()) == Remove(old(Model()), socket)
      ensures ok <==> old(IsRegistered(Model(), socket))
      ensures OwnerOf(Model(), socket) == None
    {
      ok := RemoveSocket(socket);
    }

    method GetSocketId(socket: Socket) returns (id: Option<SocketId>)
      ensures id == IdOf(Model(), socket)
      ensures id.Some? <==> IsRegistered(Model(), socket)
      ensures Consistent() && id.Some? ==> id.value in sockets && sockets[id.value] == socket
    {
      if socket in socketsRemove {
        id := Some(socketsRemove[socket]);
      } else {
        id := None;
      }
    }

    /** GetSocketOwner: in a consistent registry, some owner exactly for a registered socket. */
    method GetSocketOwner(socket: Socket) returns (owner: Option<Owner>)
      ensures owner == OwnerOf(Model(), socket)
      ensures Consistent() ==> (owner.Some? <==> IsRegistered(Model(), socket))
    {
      owner := None;
      var socketId := GetSocketId(socket);
      if !IsNullOrEmpty(socketId) && socketId.value in ownersRemove {
        owner := Some(ownersRemove[socketId.value]);
      }
      if Consistent() && IsRegistered(Model(), socket) {
        RegisteredHasOwner(Model(), socket);
      }
    }

    /** GetSockets: the recipient's Open sockets, each once. */
    method GetSockets(recipient: Owner, net: Network) returns (res: seq<Socket>)
      ensures res == OpenSocketsOf(Model(), net.state, recipient)
      ensures Consistent() ==> NoDup(res)
      ensures Consistent() ==>
        forall s :: s in res <==> OwnerOf(Model(), s) == Some(recipient) && StateIn(net.state, s) == Open
    {
      res := [];
      if recipient in owners {
        var ids := owners[recipient];
        if |ids| > 0 {
          var i := 0;
          while i < |ids|
            invariant 0 <= i <= |ids|
            invariant res == FilterOpen(Resolve(ids[..i], sockets), net.state)
          {
            assert ids[..i + 1][..i] == ids[..i];
            ghost var before := Resolve(ids[..i], sockets);
            if ids[i] in sockets {
              var s := sockets[ids[i]];
              assert (before + [s])[..|before|] == before;
              if net.StateOf(s) == Open {
                res := res + [s];
              }
            } else {
              assert before + [] == before;
            }
            i := i + 1;
          }
          assert ids[..|ids|] == ids;
        }
      }
      if Consistent() {
        OpenSocketsOfMeans(Model(), net.state, recipient);
      }
    }

    /** GetSocketsByRecipient: every socket of the recipient, each once; the state test
        `socket != null || ...` lets all of them through. */
    method GetSocketsByRecipient(recipient: Owner) returns (res: seq<Socket>)
      ensures res == SocketsOf(Model(), recipient)
      ensures Consistent() ==> NoDup(res) && forall s :: s in res <==> OwnerOf(Model(), s) == Some(recipient)
    {
      res := [];
      if recipient in owners {
        var ids := owners[recipient];
        if |ids| > 0 {
          var i := 0;
          while i < |ids|
            invariant 0 <= i <= |ids|
            invariant res == Resolve(ids[..i], sockets)
          {
            assert ids[..i + 1][..i] == ids[..i];
            if ids[i] in sockets {
              res := res + [sockets[ids[i]]];
            } else {
              assert res + [] == res;
            }
            i := i + 1;
          }
          assert ids[..|ids|] == ids;
        }
      }
      if Consistent() {
        SocketsOfMeans(Model(), recipient);
      }
    }

    /** GetSocketsByRecipients: each socket once per listing of its owner. */
    method GetSocketsByRecipients(recipients: seq<Owner>) returns (res: seq<Socket>)
      ensures res == SocketsOfAll(Model(), recipients)
      ensures Consistent() ==>
        forall s :: Count(res, s) == if OwnerOf(Model(), s).Some? then Count(recipients, OwnerOf(Model(), s).value) else 0
    {
      res := [];
      if |recipients| >= 1 {
        var i := 0;
        while i < |recipients|
          invariant 0 <= i <= |recipients|
          invariant res == SocketsOfAll(Model(), recipients[..i])
        {
          assert recipients[..i + 1][..i] == recipients[..i];
          var portion := GetSocketsByRecipient(recipients[i]);
          if |portion| > 0 {
            res := res + portion;
          } else {
            assert res + portion == res;
          }
          i := i + 1;
        }
        assert recipients[..|recipients|] == recipients;
      }
      if Consistent() {
        forall s ensures Count(res, s)
          == if OwnerOf(Model(), s).Some? then Count(recipients, OwnerOf(Model(), s).value) else 0
        {
          SocketsOfAllCount(Model(), recipients, s);
        }
      }
    }

    /** _owners.Keys.ToList(): the owner keys in some order. */
    method OwnerKeys() returns (keys: seq<Owner>)
      ensures NoDup(keys)
      ensures forall o :: o in keys <==> o in owners
    {
      keys := [];
      var rest := owners.Keys;
      while rest != {}
        invariant rest <= owners.Keys
        invariant NoDup(keys)
        invariant forall o :: o in keys <==> o in owners && o !in rest
        decreases |rest|
      {
        var o :| o in rest;
        AppendAbsentNoDup(keys, o);
        keys := keys + [o];
        rest := rest - {o};
      }
    }

    /** SendToMultipleSocketsAsync: before each socket the token is polled and the loop
        stops at the first poll that reads cancelled; each write is to one socket in
        turn, and the call fails (Task.WhenAll) if any of the writes did. */
    method SendToMultipleSocketsAsync(data: string, targets: seq<Socket>, ct: CancellationToken, net: Network)
      returns (ok: bool)
      modifies ct, net
      ensures var k := ct.FirstRequested(old(ct.polls), |targets|);
        && net.outbox == Deliver(old(net.outbox), old(net.state), targets[..k], data)
        && ok == AllWritable(old(net.state), targets[..k])
        && ct.polls == old(ct.polls) + (if k < |targets| then k + 1 else k)
      ensures net.state == old(net.state) && net.inbox == old(net.inbox) && net.log == old(net.log)
    {
      ok := true;
      var i := 0;
      while i < |targets|
        invariant 0 <= i <= |targets|
        invariant ct.polls == old(ct.polls) + i
        invariant forall j :: old(ct.polls) <= j < old(ct.polls) + i ==> !ct.RequestedAt(j)
        invariant net.outbox == Deliver(old(net.outbox), old(net.state), targets[..i], data)
        invariant ok == AllWritable(old(net.state), targets[..i])
        invariant net.state == old(net.state) && net.inbox == old(net.inbox) && net.log == old(net.log)
      {
        var cancelled := ct.IsCancellationRequested();
        if cancelled {
          assert ct.FirstRequested(old(ct.polls), |targets|) == i;
          return;
        }
        assert targets[..i + 1][..i] == targets[..i];
        var sent := net.SendAsync(targets[i], data);
        ok := ok && sent;
        i := i + 1;
      }
      assert targets[..|targets|] == targets;
    }

    /** SendAsync(data, recipient): nothing for a null or empty recipient or data, else
        the recipient's sockets. */
    method SendAsyncToRecipient(data: string, recipient: Option<Owner>, ct: CancellationToken, net: Network)
      returns (ok: bool)
      modifies ct, net
      ensures var t := RecipientTargets(Model(), data, recipient);
        var k := ct.FirstRequested(old(ct.polls), |t|);
        && net.outbox == Deliver(old(net.outbox), old(net.state), t[..k], data)
        && ok == AllWritable(old(net.state), t[..k])
        && ct.polls == old(ct.polls) + (if k < |t| then k + 1 else k)
      ensures net.state == old(net.state) && net.inbox == old(net.inbox) && net.log == old(net.log)
    {
      if IsNullOrEmpty(recipient) || IsNullOrEmpty(Some(data)) {
        return true;
      }
      var targets := GetSocketsByRecipient(recipient.value);
      if |targets| < 1 {
        return true;
      }
      ok := SendToMultipleSocketsAsync(data, targets, ct, net);
    }

    /** SendAsync(data, socket): nothing unless the socket is Open, the data is not blank
        and the token is not cancelled. */
    method SendAsyncToSocket(data: string, socket: Socket, ct: CancellationToken, net: Network)
      returns (ok: bool)
      modifies ct, net
      ensures var attempted := old(net.StateOf(socket)) == Open && !AllWhiteSpace(data);
        && ct.polls == old(ct.polls) + (if attempted then 1 else 0)
        && net.outbox == (if attempted && !ct.RequestedAt(old(ct.polls))
                          then Send1(old(net.outbox), old(net.state), socket, data) else old(net.outbox))
        && ok
      ensures net.state == old(net.state) && net.inbox == old(net.inbox) && net.log == old(net.log)
    {
      if net.StateOf(socket) != Open {
        return true;
      }
      if IsNullOrWhiteSpace(Some(data)) {
        return true;
      }
      var cancelled := ct.IsCancellationRequested();
      if cancelled {
        return true;
      }
      // the socket is Open, so the write succeeds
      ok := net.SendAsync(socket, data);
    }

    /** BroadcastAsync: the recipients' sockets less the excluded ones. */
    method BroadcastAsync(data: string, recipients: seq<Owner>, exceptSockets: seq<Socket>,
                          ct: CancellationToken, net: Network)
      returns (ok: bool)
      modifies ct, net
      ensures var t := BroadcastTargets(Model(), recipients, exceptSockets);
        var k := ct.FirstRequested(old(ct.polls), |t|);
        && net.outbox == Deliver(old(net.outbox), old(net.state), t[..k], data)
        && ok == AllWritable(old(net.state), t[..k])
        && ct.polls == old(ct.polls) + (if k < |t| then k + 1 else k)
      ensures net.state == old(net.state) && net.inbox == old(net.inbox) && net.log == old(net.log)
    {
      if |recipients| < 1 {
        return true;
      }
      var targets := GetSocketsByRecipients(recipients);
      if |exceptSockets| > 0 {
        targets := Except(targets, exceptSockets);
      }
      ok := SendToMultipleSocketsAsync(data, targets, ct, net);
    }

    /** BroadcastToAllAsync: every owner less the excluded ones, then their sockets less the
        excluded ones; order is the enumeration order of the owner keys. */
    method BroadcastToAllAsync(data: string, exceptRecipients: seq<Owner>, exceptSockets: seq<Socket>,
                               ct: CancellationToken, net: Network)
      returns (ok: bool, ghost order: seq<Owner>)
      modifies ct, net
      ensures NoDup(order) && forall o :: o in order <==> o in owners
      ensures var t := BroadcastAllTargets(Model(), order, exceptRecipients, exceptSockets);
        var k := ct.FirstRequested(old(ct.polls), |t|);
        && net.outbox == Deliver(old(net.outbox), old(net.state), t[..k], data)
        && ok == AllWritable(old(net.state), t[..k])
        && ct.polls == old(ct.polls) + (if k < |t| then k + 1 else k)
      ensures net.state == old(net.state) && net.inbox == old(net.inbox) && net.log == old(net.log)
    {
      var recipients := OwnerKeys();
      order := recipients;
      if |recipients| < 1 {
        return true, order;
      }
      if |exceptRecipients| > 0 {
        recipients := Except(recipients, exceptRecipients);
        if |recipients| < 1 {
          return true, order;
        }
      }
      var targets := GetSocketsByRecipients(recipients);
      // the source tests `recipients` again here, which cannot be empty at this point
      if |exceptSockets| > 0 {
        targets := Except(targets, exceptSockets);
        if |targets| < 1 {
          return true, order;
        }
      }
      ok := SendToMultipleSocketsAsync(data, targets, ct, net);
    }
  
    // ------------------------------------------------ members of the prototype (WebsocketManager.cs)

    /** SendStringAsync: one text message to one socket; it fails unless the socket is Writable. */
    method SendStringAsync(socket: Socket, data: string, net: Network) returns (ok: bool)
      modifies net
      ensures ok <==> Writable(old(net.StateOf(socket)))
      ensures net.outbox == Send1(old(net.outbox), old(net.state), socket, data)
      ensures net.state == old(net.state) && net.inbox == old(net.inbox) && net.log == old(net.log)
    {
      ok := net.SendAsync(socket, data);
    }

    /** One send per target, all started before any is awaited (Task.WhenAll): the call
        fails if any of them did. */
    method SendToEach(data: string, targets: seq<Socket>, net: Network) returns (ok: bool)
      modifies net
      ensures net.outbox == Deliver(old(net.outbox), old(net.state), targets, data)
      ensures ok == AllWritable(old(net.state), targets)
      ensures net.state == old(net.state) && net.inbox == old(net.inbox) && net.log == old(net.log)
    {
      ok := true;
      var i := 0;
      while i < |targets|
        invariant 0 <= i <= |targets|
        invariant net.outbox == Deliver(old(net.outbox), old(net.state), targets[..i], data)
        invariant ok == AllWritable(old(net.state), targets[..i])
        invariant net.state == old(net.state) && net.inbox == old(net.inbox) && net.log == old(net.log)
      {
        assert targets[..i + 1][..i] == targets[..i];
        var sent := SendStringAsync(targets[i], data, net);
        ok := ok && sent;
        i := i + 1;
      }
      assert targets[..|targets|] == targets;
    }

    /** SendToRecipientAsync: no token polling; one send per socket GetSocketsByOwner yields. */
    method SendToRecipientAsync(recipient: Option<Owner>, data: string, net: Network) returns (ok: bool)
      modifies net
      ensures net.outbox == Deliver(old(net.outbox), old(net.state), RecipientTargets(Model(), data, recipient), data)
      ensures ok == AllWritable(old(net.state), RecipientTargets(Model(), data, recipient))
      ensures net.state == old(net.state) && net.inbox == old(net.inbox) && net.log == old(net.log)
    {
      if IsNullOrEmpty(recipient) || IsNullOrEmpty(Some(data)) {
        return true;
      }
      var targets := GetSocketsByRecipient(recipient.value);
      if |targets| < 1 {
        return true;
      }
      ok := SendToEach(data, targets, net);
    }

    /** BroadcastMessage: not implemented; every call throws. */
    method BroadcastMessage(recipient: Owner, data: string) returns (r: Result<(), string>)
      ensures r == Err("NotImplementedException")
    {
      r := Err("NotImplementedException");
    }
  }
}
