/** The middleware that Startup wires in (NotificationWsMiddleware.cs): a two-dictionary
    registry (owner -> socket ids, socket id -> socket) shared by every connection, an
    echo loop per connection, and a text protocol "from_to_text" answered by sending the
    text to both owners' sockets. */
module Middleware {
  import opened Wrappers
  import opened Text
  import opened Json
  import opened Lists
  import opened Transport
  import opened Registry
  import opened Receiving
  import opened Listener

  /** How far a sequence of awaited sends gets: the number of leading targets that are
      Writable, since the first send to a socket that is not Writable raises and ends the loop. */
  function WritablePrefix(state: map<Socket, WsState>, targets: seq<Socket>): (p: nat)
    ensures p <= |targets|
    ensures forall i :: 0 <= i < p ==> Writable(StateIn(state, targets[i]))
    ensures p < |targets| ==> !Writable(StateIn(state, targets[p]))
  {
    if targets == [] then 0
    else if Writable(StateIn(state, targets[0])) then 1 + WritablePrefix(state, targets[1..])
    else 0
  }

  /** Behind an all-Writable prefix the sends go on into what follows. */
  lemma {:induction false} WritablePrefixAppend(state: map<Socket, WsState>, t: seq<Socket>, u: seq<Socket>)
    requires AllWritable(state, t)
    ensures WritablePrefix(state, t + u) == |t| + WritablePrefix(state, u)
  {
    if t == [] {
      assert t + u == u;
    } else {
      assert (t + u)[0] == t[0] && (t + u)[1..] == t[1..] + u;
      assert AllWritable(state, t[1..]) by {
        forall i | 0 <= i < |t[1..]| ensures Writable(StateIn(state, t[1..][i])) {
          assert t[1..][i] == t[i + 1];
        }
      }
      WritablePrefixAppend(state, t[1..], u);
    }
  }

  /** What ProcessMessage does with a text: three '_'-separated fields send the third to
      the second owner and to the first; anything else is reported to everyone. */
  datatype Request = ToPair(data: string, first: string, second: string) | ToAll(data: string)

  function Decide(message: string): (q: Request)
    ensures q.ToAll? <==> Occurrences(message, '_') != 2
    ensures q.ToAll? ==> q.data == "Wrong message format: " + message
  {
    SplitCount(message, '_');
    var f := Split(message, '_');
    if |f| == 3 then ToPair(f[2], f[1], f[0]) else ToAll("Wrong message format: " + message)
  }

  /** A message built from three separator-free fields is understood as meant: the text
      goes to the receiver and back to the sender. */
  lemma DecideFields(from: string, to: string, text: string)
    requires '_' !in from && '_' !in to && '_' !in text
    ensures Decide(Join([from, to, text], '_')) == ToPair(text, to, from)
  {
    SplitJoin([from, to, text], '_');
  }

  /** A text field holding the separator makes the message malformed. */
  lemma TextWithSeparator(from: string, to: string, text: string)
    requires '_' !in from && '_' !in to && '_' in text
    ensures Decide(Join([from, to, text], '_')).ToAll?
  {
    var m := Join([from, to, text], '_');
    assert [from, to, text][1..] == [to, text] && [to, text][1..] == [text];
    assert Join([text], '_') == text;
    assert Join([to, text], '_') == to + ['_'] + text;
    assert m == from + ['_'] + (to + ['_'] + text);
    SplitAtFirst(from, to + ['_'] + text, '_');
    SplitAtFirst(to, text, '_');
    SplitCount(text, '_');
    CountFromSplit(text);
  }

  /** A separator in a string gives it more than one piece. */
  lemma {:induction false} CountFromSplit(s: string)
    requires '_' in s
    ensures |Split(s, '_')| >= 2
  {
    SplitCount(s, '_');
    OccursIn(s, '_');
  }

  lemma {:induction false} OccursIn(s: string, c: char)
    requires c in s
    ensures Occurrences(s, c) >= 1
  {
    if s[0] != c {
      assert c in s[1..];
      OccursIn(s[1..], c);
    }
  }

  /** A socket torn down under its only id is skipped by every later BroadcastMessage. */
  lemma TornDownIsSkipped(ids: seq<SocketId>, sockets: map<SocketId, Socket>, id: SocketId)
    requires id in sockets
    requires forall k :: k in sockets && sockets[k] == sockets[id] ==> k == id
    ensures sockets[id] !in Resolve(ids, sockets - {id})
  {
    ResolveMembers(ids, sockets - {id}, sockets[id]);
  }

  lemma ResolveSnoc(ids: seq<SocketId>, m: map<SocketId, Socket>, id: SocketId)
    requires id in m
    ensures Resolve(ids + [id], m) == Resolve(ids, m) + [m[id]]
  {
    assert (ids + [id])[..|ids|] == ids;
  }

  lemma FilterOpenSnoc(xs: seq<Socket>, state: map<Socket, WsState>, s: Socket)
    ensures FilterOpen(xs + [s], state) == FilterOpen(xs, state) + if StateIn(state, s) == Open then [s] else []
  {
    assert (xs + [s])[..|xs|] == xs;
  }

  lemma DeliverSnoc(outbox: map<Socket, seq<string>>, state: map<Socket, WsState>, xs: seq<Socket>, s: Socket, data: string)
    ensures Deliver(outbox, state, xs + [s], data) == Send1(Deliver(outbox, state, xs, data), state, s, data)
  {
    assert (xs + [s])[..|xs|] == xs;
  }

  /** Resolving one more id of a list adds its socket when the id is stored. */
  lemma ResolveStep(ids: seq<SocketId>, i: nat, m: map<SocketId, Socket>)
    requires i < |ids|
    ensures Resolve(ids[..i + 1], m) == Resolve(ids[..i], m) + if ids[i] in m then [m[ids[i]]] else []
  {
    assert ids[..i + 1][..i] == ids[..i];
  }

  /** Awaited sends over an owner's list stop at the first stored socket that is not Writable. */
  lemma StopsAt(state: map<Socket, WsState>, ids: seq<SocketId>, i: nat, m: map<SocketId, Socket>)
    requires i < |ids| && ids[i] in m && !Writable(StateIn(state, m[ids[i]]))
    requires AllWritable(state, Resolve(ids[..i], m))
    ensures var t := Resolve(ids[..i], m);
      && WritablePrefix(state, Resolve(ids, m)) == |t| < |Resolve(ids, m)|
      && Resolve(ids, m)[..|t|] == t
  {
    var t := Resolve(ids[..i], m);
    var u := [m[ids[i]]] + Resolve(ids[i + 1..], m);
    ResolveStep(ids, i, m);
    ResolveAppend(ids[..i + 1], ids[i + 1..], m);
    assert ids[..i + 1] + ids[i + 1..] == ids;
    assert Resolve(ids, m) == t + u;
    assert u[0] == m[ids[i]] && WritablePrefix(state, u) == 0;
    WritablePrefixAppend(state, t, u);
    assert (t + u)[..|t|] == t;
  }

  /** When every stored socket of the list is Writable the sends get through all of them. */
  lemma RunsThrough(state: map<Socket, WsState>, t: seq<Socket>)
    requires AllWritable(state, t)
    ensures WritablePrefix(state, t) == |t| && t[..|t|] == t
  {
    WritablePrefixAppend(state, t, []);
    assert t + [] == t;
  }

  /** One more enumerated entry: its socket is written to exactly when it is Open. */
  lemma ToAllStep(out0: map<Socket, seq<string>>, state0: map<Socket, WsState>, order: seq<string>,
                  sockets: map<SocketId, Socket>, id: string, data: string)
    requires id in sockets
    ensures Deliver(out0, state0, FilterOpen(Resolve(order + [id], sockets), state0), data)
         == var before := Deliver(out0, state0, FilterOpen(Resolve(order, sockets), state0), data);
            if StateIn(state0, sockets[id]) == Open then Send1(before, state0, sockets[id], data) else before
  {
    var s := sockets[id];
    var before := FilterOpen(Resolve(order, sockets), state0);
    ResolveSnoc(order, sockets, id);
    FilterOpenSnoc(Resolve(order, sockets), state0, s);
    if StateIn(state0, s) == Open {
      DeliverSnoc(out0, state0, before, s, data);
    } else {
      assert before + [] == before;
    }
  }

  class NotificationWsMiddleware {
    /** The static _owners and _sockets dictionaries. */
    var owners: map<string, seq<string>>
    var sockets: map<string, Socket>

    constructor ()
      ensures owners == map[] && sockets == map[]
    {
      owners := map[];
      sockets := map[];
    }

    /** The sockets BroadcastMessage(_, ownerId) walks, in list order: those of the owner's
        ids still in _sockets, whatever their state. */
    function OwnerTargets(ownerId: string): seq<Socket>
      reads this
    {
      if ownerId in owners then Resolve(owners[ownerId], sockets) else []
    }

    /** The registration part of Invoke, with newGuid standing for Guid.NewGuid(): the new
        id is appended to the owner's list, or starts a new one; the socket is stored under
        it unless the id is taken. The owner string is not checked. */
    method Register(socket: Socket, ownerId: string, newGuid: string)
      requires IsHyphenatedGuid(newGuid)
      modifies this
      ensures owners == old(owners)[ownerId := (if ownerId in old(owners) then old(owners)[ownerId] else []) + [newGuid]]
      ensures sockets == if newGuid in old(sockets) then old(sockets) else old(sockets)[newGuid := socket]
    {
      if ownerId in owners {
        owners := owners[ownerId := owners[ownerId] + [newGuid]];
      } else {
        owners := owners[ownerId := [newGuid]];
        assert [] + [newGuid] == [newGuid];
      }
      if newGuid !in sockets {
        sockets := sockets[newGuid := socket];
      }
    }

    /** A freshly registered socket is among the owner's broadcast targets. */
    lemma RegisteredIsTargeted(socket: Socket, ownerId: string, newGuid: string)
      requires ownerId in owners && newGuid in owners[ownerId] && newGuid in sockets
      requires sockets[newGuid] == socket
      ensures socket in OwnerTargets(ownerId)
    {
      ResolveMembers(owners[ownerId], sockets, socket);
    }

    /** BroadcastMessage: awaited sends to the owner's sockets in list order, stopping at
        the first one that is neither Open nor CloseReceived (its send raises). */
    method BroadcastMessage(data: string, ownerId: string, net: Network) returns (ok: bool)
      modifies net
      ensures var t := OwnerTargets(ownerId);
        var p := WritablePrefix(old(net.state), t);
        net.outbox == Deliver(old(net.outbox), old(net.state), t[..p], data) && (ok <==> p == |t|)
      ensures net.state == old(net.state) && net.inbox == old(net.inbox) && net.log == old(net.log)
    {
      ok := true;
      if ownerId !in owners {
        return;
      }
      var ids := owners[ownerId];
      if |ids| == 0 {
        return;
      }
      ghost var state0 := net.state;
      ghost var out0 := net.outbox;
      ghost var t: seq<Socket> := [];
      var i := 0;
      while i < |ids|
        invariant 0 <= i <= |ids|
        invariant t == Resolve(ids[..i], sockets)
        invariant AllWritable(state0, t)
        invariant net.outbox == Deliver(out0, state0, t, data)
        invariant net.state == state0 && net.inbox == old(net.inbox) && net.log == old(net.log)
      {
        ResolveStep(ids, i, sockets);
        if ids[i] in sockets {
          var s := sockets[ids[i]];
          var sent := net.SendAsync(s, data);
          if !sent {
            StopsAt(state0, ids, i, sockets);
            return false;
          }
          DeliverSnoc(out0, state0, t, s, data);
          t := t + [s];
        }
        i := i + 1;
      }
      assert ids[..|ids|] == ids;
      RunsThrough(state0, t);
    }

    /** BroadcastMessageToAll: one send to every stored socket that is Open, in the
        dictionary's enumeration order; no send can fail. */
    method BroadcastMessageToAll(data: string, net: Network) returns (ghost order: seq<string>)
      modifies net
      ensures NoDup(order) && forall id :: id in order <==> id in sockets
      ensures net.outbox == Deliver(old(net.outbox), old(net.state), FilterOpen(Resolve(order, sockets), old(net.state)), data)
      ensures net.state == old(net.state) && net.inbox == old(net.inbox) && net.log == old(net.log)
    {
      ghost var state0 := net.state;
      ghost var out0 := net.outbox;
      var keys := sockets.Keys;
      order := [];
      while keys != {}
        invariant keys <= sockets.Keys
        invariant forall id :: id in order <==> id in sockets && id !in keys
        invariant NoDup(order)
        invariant net.outbox == Deliver(out0, state0, FilterOpen(Resolve(order, sockets), state0), data)
        invariant net.state == state0 && net.inbox == old(net.inbox) && net.log == old(net.log)
        decreases |keys|
      {
        var id :| id in keys;
        var s := sockets[id];
        ToAllStep(out0, state0, order, sockets, id, data);
        if net.StateOf(s) == Open {
          var sent := net.SendAsync(s, data);
        }
        AppendAbsentNoDup(order, id);
        order := order + [id];
        keys := keys - {id};
      }
    }

    /** ProcessMessage. With three fields both broadcasts are started, the receiver's
        first, and the call fails if either does; otherwise the format error goes to all. */
    method ProcessMessage(message: string, net: Network) returns (ok: bool, ghost order: seq<string>)
      modifies net
      ensures match Decide(message)
        case ToPair(data, first, second) =>
          var t1 := OwnerTargets(first);
          var p1 := WritablePrefix(old(net.state), t1);
          var t2 := OwnerTargets(second);
          var p2 := WritablePrefix(old(net.state), t2);
          && net.outbox == Deliver(Deliver(old(net.outbox), old(net.state), t1[..p1], data), old(net.state), t2[..p2], data)
          && (ok <==> p1 == |t1| && p2 == |t2|)
        case ToAll(data) =>
          && NoDup(order) && (forall id :: id in order <==> id in sockets)
          && net.outbox == Deliver(old(net.outbox), old(net.state), FilterOpen(Resolve(order, sockets), old(net.state)), data)
          && ok
      ensures net.state == old(net.state) && net.inbox == old(net.inbox) && net.log == old(net.log)
    {
      order := [];
      SplitCount(message, '_');
      var f := Split(message, '_');
      if |f| == 3 {
        var ok1 := BroadcastMessage(f[2], f[1], net);
        var ok2 := BroadcastMessage(f[2], f[0], net);
        ok := ok1 && ok2;
      } else {
        order := BroadcastMessageToAll("Wrong message format: " + message, net);
        ok := true;
      }
    }

    /** Echo: the connection's receive loop. Leaving the loop normally drops the id from
        _sockets only (its owner list keeps it), then closes and disposes the socket under
        Echo's token, which raises instead once the token has fired (always so after a
        cancellation at the top of the loop); an exception from the receive or from
        ProcessMessage leaves both dictionaries as they were, and a dropped connection leaves the
        socket Aborted. On a socket that starts Open the texts handed to ProcessMessage are
        the peer's non-empty text messages, in order. */
    method Echo(socket: Socket, socketId: string, ct: CancellationToken, codec: Codec, net: Network)
      returns (outcome: ListenEnd, ghost handled: seq<string>)
      modifies this, ct, net
      ensures owners == old(owners)
      ensures outcome.PeerLeft? || outcome.CancelledAtTop? ==>
        sockets == old(sockets) - {socketId}
      ensures outcome.PeerLeft? && outcome.closed ==>
        && net.log == old(net.log) + [Closing(socket, NormalClosure), Disposed(socket)]
        && net.StateOf(socket) == Closed
        && ct.polls > old(ct.polls) && !ct.RequestedAt(ct.polls - 1)
      ensures (outcome.PeerLeft? && !outcome.closed) || outcome.CancelledAtTop? ==>
        && net.log == old(net.log) && net.StateOf(socket) == Aborted
        && ct.polls > old(ct.polls) && ct.RequestedAt(ct.polls - 1)
      ensures outcome.CancelledInReceive? || outcome.ReceiveFailed? || outcome.HandlerFailed? ==>
        sockets == old(sockets) && net.log == old(net.log)
      ensures outcome.ReceiveFailed? ==> net.StateOf(socket) == Aborted
      ensures old(net.StateOf(socket)) == Open && (outcome.CancelledAtTop? || outcome.HandlerFailed?) ==>
        handled + Messages(net.InboxOf(socket), codec) == Messages(old(net.InboxOf(socket)), codec)
      ensures old(net.StateOf(socket)) == Open && (outcome.PeerLeft? || outcome.ReceiveFailed?) ==>
        handled == Messages(old(net.InboxOf(socket)), codec)
    {
      ghost var log0 := net.log;
      ghost var frames0 := net.InboxOf(socket);
      ghost var open0 := net.StateOf(socket) == Open;
      handled := [];
      assert handled + Messages(frames0, codec) == Messages(frames0, codec);
      while true
        invariant owners == old(owners) && sockets == old(sockets)
        invariant net.log == log0
        invariant ct.polls >= old(ct.polls)
        invariant open0 ==> net.StateOf(socket) == Open
        invariant open0 ==> handled + Messages(net.InboxOf(socket), codec) == Messages(frames0, codec)
        decreases Weight(net.InboxOf(socket))
      {
        var cancelled := ct.IsCancellationRequested();
        if cancelled {
          outcome := CancelledAtTop;
          break;
        }
        ghost var cur := net.InboxOf(socket);
        ghost var (bytes, kind, rest) := Assemble(cur);
        var r, chunks := ReceiveStringAsync(socket, ct, codec, net);
        if r.Cancelled? {
          return CancelledInReceive, handled;
        }
        assert r == if !Complete(cur) then Failed
                    else if kind == TextMessage then Message(codec.utf8(bytes)) else NullString;
        ReceivedStep(cur, codec, r);
        if r.Failed? {
          assert handled + [] == handled;
          return ReceiveFailed, handled;
        }
        if r.NullString? || r.text == "" {
          if net.StateOf(socket) != Open {
            outcome := PeerLeft(true);
            break;
          }
          continue;
        }
        AppendAssoc(handled, [r.text], Messages(rest, codec));
        handled := handled + [r.text];
        var ok, order := ProcessMessage(r.text, net);
        if !ok {
          return HandlerFailed, handled;
        }
      }
      var closed := TearDown(socket, socketId, ct, net);
      if outcome.PeerLeft? {
        outcome := PeerLeft(closed);
      }
    }

    /** The end of Echo: drop the id from the connection table, close with NormalClosure
        under Echo's own token, dispose. A requested token makes the close raise after the
        removal, so the socket is aborted and never disposed (closed false). */
    method TearDown(socket: Socket, socketId: string, ct: CancellationToken, net: Network) returns (closed: bool)
      modifies this, ct, net
      ensures owners == old(owners) && sockets == old(sockets) - {socketId}
      ensures ct.polls == old(ct.polls) + 1
      ensures closed <==> !ct.RequestedAt(old(ct.polls))
      ensures net.log == if closed then old(net.log) + [Closing(socket, NormalClosure), Disposed(socket)] else old(net.log)
      ensures net.state == old(net.state)[socket := if closed then Closed else Aborted]
      ensures net.inbox == old(net.inbox) && net.outbox == old(net.outbox)
    {
      sockets := sockets - {socketId};
      closed := net.CloseAsync(socket, NormalClosure, ct);
      if !closed {
        return;
      }
      net.Dispose(socket);
    }

    /** Invoke on a WebSocket request: register the connection, then echo until it ends.
        The id stays in the owner's list in every case; the rest is Echo's outcome, since
        registering touches neither the socket nor the token. */
    method Invoke(socket: Socket, ownerId: string, newGuid: string, ct: CancellationToken, codec: Codec, net: Network)
      returns (outcome: ListenEnd, ghost handled: seq<string>)
      requires IsHyphenatedGuid(newGuid)
      modifies this, ct, net
      ensures owners == old(owners)[ownerId := (if ownerId in old(owners) then old(owners)[ownerId] else []) + [newGuid]]
      ensures var registered := if newGuid in old(sockets) then old(sockets) else old(sockets)[newGuid := socket];
        sockets == if outcome.PeerLeft? || outcome.CancelledAtTop? then registered - {newGuid} else registered
      ensures outcome.PeerLeft? && outcome.closed ==>
        && net.log == old(net.log) + [Closing(socket, NormalClosure), Disposed(socket)]
        && net.StateOf(socket) == Closed
        && ct.polls > old(ct.polls) && !ct.RequestedAt(ct.polls - 1)
      ensures (outcome.PeerLeft? && !outcome.closed) || outcome.CancelledAtTop? ==>
        && net.log == old(net.log) && net.StateOf(socket) == Aborted
        && ct.polls > old(ct.polls) && ct.RequestedAt(ct.polls - 1)
      ensures outcome.CancelledInReceive? || outcome.ReceiveFailed? || outcome.HandlerFailed? ==> net.log == old(net.log)
      ensures outcome.ReceiveFailed? ==> net.StateOf(socket) == Aborted
      ensures old(net.StateOf(socket)) == Open && (outcome.CancelledAtTop? || outcome.HandlerFailed?) ==>
        handled + Messages(net.InboxOf(socket), codec) == Messages(old(net.InboxOf(socket)), codec)
      ensures old(net.StateOf(socket)) == Open && (outcome.PeerLeft? || outcome.ReceiveFailed?) ==>
        handled == Messages(old(net.InboxOf(socket)), codec)
    {
      Register(socket, ownerId, newGuid);
      outcome, handled := Echo(socket, newGuid, ct, codec, net);
    }
  }
}
