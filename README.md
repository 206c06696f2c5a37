# WebSockets_Echo gateway, modelled in Dafny

This project models the core of a WebSocket notification gateway. The gateway accepts
browser connections and keeps a registry of them: owner to socket ids, socket id to owner,
socket id to socket, and socket to socket id. It relays chat messages between front ends,
and forwards queue events as notifications, or as error reports sent to everyone. The
model covers three variants of the code:

- the canonical services: `WebsocketManager`, `WsClient`, `WsMessageHandler` and
  `RmqMessageHandler`;
- the prototype `WebsocketManager` and `ClientMessageHandler`;
- `NotificationWsMiddleware`, the component the application actually wires in.

Modules, one concept each:

- `Wrappers`, `Text`, `Lists`: the `Option` and `Result` types; the .NET string
  predicates the code relies on (`IsNullOrWhiteSpace`, `ToLower`, `Split`, GUID shapes);
  list helpers.
- `Json`: the JSON values Newtonsoft.Json reads and writes. Text is turned into JSON and
  back by an abstract `Codec`. `Lawful(codec)` says that parsing a serialised value gives
  the value back.
- `Transport`: the WebSocket world.
  - A socket is an opaque handle.
  - A `Network` object holds, per socket, its state, the frames the peer will send
    (inbox), the texts written to it (outbox), and an event log of closes and disposals.
  - A `CancellationToken` object counts its polls.
  - A write succeeds on a socket that is Open or CloseReceived (the peer's close has
    arrived, this side's has not been sent), as WebSocket.SendAsync allows; in any other
    state it raises. A fan-out whose write raised fails
    (Task.WhenAll).
  - A receive takes the next chunk of the inbox. On an empty inbox the peer has dropped
    the connection: the receive raises and the socket is Aborted.
  - A close honours its token before anything is sent. Under a token that has fired it
    aborts the socket and raises OperationCanceledException, logging nothing, as the
    managed WebSocket does when an operation is cancelled. Otherwise it logs the close
    and the socket ends Closed.
- `Registry`: the four dictionaries as one value, `Valid` (their joint consistency), and
  `Add`/`Remove` as functions that follow AddSocket/RemoveSocket branch by branch.
- `Services`: the class `WebsocketManager`.
  - Its four dictionary fields are updated in place.
  - Its methods are proved against `Registry.Add`/`Registry.Remove`, and its fan-outs
    against `Transport.Deliver`.
  - The prototype manager is a near copy, so it is modelled by the same class, which
    also carries the methods only the prototype has.
- `WsMessages`, `ChatMessages`, `WebsocketMessages` (with `Msg`), `RmqMessages`,
  `ClientMessages`: the envelopes, their validity predicates, and their parsing and
  serialisation.
- `WsHandlers`, `RmqHandlers`, `ClientHandlers`: each router is a pure decision function
  from one text to the delivery it asks for, plus the handler class that carries the
  delivery out through the manager.
- `Receiving`: the frame assembler, `ReceiveStringAsync`. The canonical listener, the
  prototype handler and the middleware each have an identical copy, so one method models
  all three.
- `Listener`: the receive loop `Listen` and its teardown `KillSocket`. They are shared by
  the canonical `WsClient` and the prototype `ClientMessageHandler`.
- `Middleware`: `NotificationWsMiddleware`.
  - Its two static dictionaries are fields of one instance.
  - It has the `'_'`-split parser and two broadcasts.
  - Its `Echo` loop uses the shared assembler.

Where the code and its documentation disagree, the model follows the code:

- `ReceiveStringAsync` decides between text and null by the type of the last chunk only.
- A cancellation raised inside `ReceiveStringAsync` escapes `Listen` and `Echo` with no
  teardown. Only the poll at the top of the loop leads to teardown, and that teardown
  never completes. It passes the same, already cancelled token to `CloseAsync`
  (Services/WsListener.cs:97, ClientMessages/ClientMessageHandler.cs:168,
  NotificationWsMiddleware.cs:75). So the socket is unregistered, then `CloseAsync`
  raises: the socket is left Aborted and is never disposed. A teardown after the peer
  closed completes only if the token still has not fired.
- A peer that drops the connection without a close makes `ReceiveAsync` raise a
  WebSocketException. It escapes `Listen` and `Echo` with no teardown too: the socket
  stays registered, in the Aborted state.
- `socket != null || socket.State == WebSocketState.Open` is true of every socket. So
  none of these filter by state, despite the doc comments:
  - `GetSocketsByRecipient` (Services/WebsocketManager.cs:218);
  - the prototype `GetSocketsByOwner` (WebsocketManager.cs:141);
  - the middleware `BroadcastMessage` (NotificationWsMiddleware.cs:96).
- `BroadcastToAllAsync` re-tests `recipients` where it means `sockets`
  (Services/WebsocketManager.cs:195-199). The test cannot fire.
- The prototype relay removes the source socket from the sender's list only. When sender
  and receiver are the same owner, the source still receives the message.
- The middleware's `Echo` teardown removes the id from `_sockets` only. `_owners` keeps
  it.

## Model

| member | source | states |
|---|---|---|
| Registry.AddRegistered | Services/WebsocketManager.cs:32-48 | re-adding a registered socket leaves all four maps as they were; it returns true exactly when the owner equals the recorded one ignoring case, and otherwise fails with DifferentOwner |
| Registry.AddFresh | Services/WebsocketManager.cs:51-81 | a new socket under an unused id succeeds, and the result is the old registry plus exactly the four new entries, the id appended to the owner's list |
| Registry.InsertedValid | Services/WebsocketManager.cs:14-24 | inserting a new socket keeps the four dictionaries consistent (each inverse map inverts its partner, owner lists hold no repeats), gives the socket its owner and changes no other socket's owner |
| Registry.RemoveUnregistered | Services/WebsocketManager.cs:83-92 | removing an unregistered socket returns false and changes nothing |
| Registry.RemoveRegistered | Services/WebsocketManager.cs:83-92 | removing a registered socket of a consistent registry returns true and takes out exactly its entries, leaving the owner key with a list that may be empty |
| Registry.DeletedValid | Services/WebsocketManager.cs:83-92 | the removal keeps the registry consistent, leaves the socket without owner and every other socket with its owner |
| Registry.RegisteredHasOwner | Services/WebsocketManager.cs:14-24 | in a consistent registry a registered socket's id has a socket entry and an owner record whose list holds it |
| Registry.AddThenRemove | Services/WebsocketManager.cs:29-92 | adding a new socket and removing it again gives back the registry, except that the owner key now exists |
| Registry.RemovedIsUnreachable | Services/WebsocketManager.cs:83-92 | after a removal no owner lookup yields the socket |
| Registry.SocketsOfCount | Services/WebsocketManager.cs:212-220 | an owner's lookup holds each of the owner's sockets exactly once and no other socket |
| Registry.SocketsOfMeans | Services/WebsocketManager.cs:212-220 | GetSocketsByRecipient yields exactly the sockets registered to the owner, whatever their state, without repeats |
| Registry.OpenSocketsOfMeans | Services/WebsocketManager.cs:106-116 | GetSockets yields exactly the owner's registered sockets that are Open, without repeats |
| Registry.SocketsOfAllCount | Services/WebsocketManager.cs:221-235 | the recipients' lookup holds a socket once per listing of its owner |
| Registry.SocketsOfAllMeans | Services/WebsocketManager.cs:221-235 | the recipients' lookup holds exactly the sockets whose owner is listed |
| Services.BroadcastTargetsMeans | Services/WebsocketManager.cs:159-174 | a broadcast targets exactly the sockets of listed recipients that are not excluded; with exclusions each once, without them once per listing of the owner; no recipients, no targets |
| Services.BroadcastAllTargetsMeans | Services/WebsocketManager.cs:175-210 | a broadcast to all targets each registered socket whose owner and which itself are not excluded, exactly once, in whatever order the owner keys are enumerated |
| Services.WebsocketManager.constructor | Services/WebsocketManager.cs:14-24 | the four dictionaries start empty and consistent |
| Services.WebsocketManager.AddSocket | Services/WebsocketManager.cs:29-82 | keeps the dictionaries consistent and updates them as Registry.Add; on success the socket is registered to the owner (ignoring case); on failure nothing changes and the error is DifferentOwner or CannotAddSocket; the copy at WebsocketManager.cs:26-79 is the same code |
| Services.WebsocketManager.RemoveSocket | Services/WebsocketManager.cs:83-92 | keeps the dictionaries consistent, updates them as Registry.Remove, returns true exactly when the socket was registered, and afterwards the socket has no owner while every other socket keeps its owner; the copy at WebsocketManager.cs:81-90 is the same code |
| Services.WebsocketManager.KillSocket | Services/WebsocketManager.cs:93-97 | behaves exactly as RemoveSocket |
| Services.WebsocketManager.GetSocketId | Services/WebsocketManager.cs:118-122 | the socket's id, present exactly when the socket is registered, and mapping back to the socket; the copy at WebsocketManager.cs:92-96 is the same code |
| Services.WebsocketManager.GetSocketOwner | Services/WebsocketManager.cs:98-105 | the recorded owner; in a consistent registry some owner exactly when the socket is registered, null otherwise; the copy at WebsocketManager.cs:97-104 is the same code |
| Services.WebsocketManager.GetSockets | Services/WebsocketManager.cs:106-116 | the owner's Open sockets, without repeats, and none for an unknown owner; the copy at WebsocketManager.cs:105-115 is the same code |
| Services.WebsocketManager.GetSocketsByRecipient | Services/WebsocketManager.cs:212-220 | all of the owner's sockets, each once, whatever their state; the prototype's GetSocketsByOwner at WebsocketManager.cs:135-143 is the same code |
| Services.WebsocketManager.GetSocketsByRecipients | Services/WebsocketManager.cs:221-235 | the recipients' sockets recipient after recipient, a socket once per listing of its owner |
| Services.WebsocketManager.OwnerKeys | Services/WebsocketManager.cs:178 | the owner keys, each once, in some order |
| Services.WebsocketManager.SendToMultipleSocketsAsync | Services/WebsocketManager.cs:236-252 | the token is polled before each target; the targets before the first poll that reads cancelled are written to, in order, and nothing after; ok is false when one of those writes failed |
| Services.WebsocketManager.SendAsyncToRecipient | Services/WebsocketManager.cs:127-140 | nothing for a null or empty recipient or empty data; otherwise the same as SendToMultipleSocketsAsync over the recipient's sockets |
| Services.WebsocketManager.SendAsyncToSocket | Services/WebsocketManager.cs:141-158 | nothing is written to a socket that is not Open, for blank data, or under a cancelled token; otherwise exactly one write; never an error |
| Services.WebsocketManager.BroadcastAsync | Services/WebsocketManager.cs:159-174 | the token-bounded fan-out over BroadcastTargets |
| Services.WebsocketManager.BroadcastToAllAsync | Services/WebsocketManager.cs:175-210 | the token-bounded fan-out over BroadcastAllTargets, for an enumeration order of all owner keys |
| Services.WebsocketManager.SendStringAsync | WebsocketManager.cs:123-128 | exactly one write; it succeeds exactly when the socket is Open or CloseReceived |
| Services.WebsocketManager.SendToEach | WebsocketManager.cs:158-162 | every target is written to in order, and the call fails exactly when some target is neither Open nor CloseReceived |
| Services.WebsocketManager.SendToRecipientAsync | WebsocketManager.cs:145-163 | nothing for a null or empty recipient or empty data; otherwise one write per socket of the recipient, with no token and no state filter |
| Services.WebsocketManager.BroadcastMessage | WebsocketManager.cs:118-121 | always fails with NotImplementedException |
| Transport.NextChunkBounded | Services/WsListener.cs:61-70 | one receive yields at most the buffer's size and leaves less to receive unless it ends the message |
| Transport.NextChunkAssembles | Services/WsListener.cs:64-72 | receiving one chunk and assembling what is left gives the same message as assembling it all at once |
| Transport.DeliverOutbox | Services/WebsocketManager.cs:236-246 | after a fan-out each socket holds one more copy of the text per listing, if it is Open or CloseReceived, and no more |
| Transport.DeliverUntargeted | Services/WebsocketManager.cs:236-246 | a fan-out leaves a socket it does not target untouched |
| WsMessages.IsValidMeans | WsListener/WsMesage.cs:23 | valid exactly when Type is present with a non-white-space char and Data is not null |
| WsMessages.ToJsonFields | WsListener/WsMesage.cs:21-39 | the serialised object has exactly the properties Type and Data, the constructor's values, and no IsValid |
| WsMessages.Parse | WsListener/WsMesage.cs:25-34 | text that is not JSON raises |
| WsMessages.ParseToString | WsListener/WsMesage.cs:31-39 | parsing what ToString wrote gives back the same Type and Data |
| ChatMessages.IsValidMeans | WsListener/ChatMsgFE.cs:13-21 | valid exactly when From and To are present GUIDs and Body is present and non-empty |
| ChatMessages.WhatValidityIgnores | WsListener/ChatMsgFE.cs:13-21 | any white-space-only, non-empty Body is accepted with GUID From and To; every valid message stays valid with its To replaced by its From; and Created never matters |
| Text.GuidIsNotWhiteSpace | WsListener/ChatMsgFE.cs:17-19 | a GUID is never blank, so the white-space tests beside Guid.TryParse add nothing |
| WebsocketMessages.BaseIsValidMeans | WebsocketMessage.cs:16-23 | the base message is valid exactly when Type has a non-white-space char, whatever Data holds |
| WebsocketMessages.MsgIsValidMeans | Messages/Msg.cs:10-19 | Msg is valid exactly when the base rule holds and Recipient is a GUID; Msg validity implies base validity |
| WebsocketMessages.ToStringDropsRecipient | WebsocketMessage.cs:25-43 | a Msg serialises exactly as the base message with its Type and Data; no Recipient is written |
| RmqMessages.IsValidMeans | RmqListener/RmqMessage.cs:7-11 | valid exactly when Type has a non-white-space char and Data is not null; Recipient never matters |
| RmqMessages.Parse | RmqListener/RmqMessage.cs:19-23 | malformed text, and JSON that is not an object, raise |
| ClientMessages.Parse | ClientMessages/ClientMesage.cs:17-26 | text that is not JSON raises |
| ClientMessages.AgreesWithWsMesage | ClientMessages/ClientMesage.cs:15-26 | the prototype envelope parses, fails and validates exactly as WsMesage does |
| WsHandlers.Route | WsListener/WsMessageHandler.cs:29-55 | text that does not parse, and a null envelope, lead to nothing; anything else that acts is a valid envelope of type chat_from_merchant ignoring case |
| WsHandlers.RouteDispatch | WsListener/WsMessageHandler.cs:43-53 | a parsed envelope reaches the chat handler exactly when it is valid and its type is chat_from_merchant ignoring case; otherwise nothing |
| WsHandlers.RouteChat | WsListener/WsMessageHandler.cs:77-79 | a relay always has two recipients and excludes exactly the source socket |
| WsHandlers.RouteChatMeans | WsListener/WsMessageHandler.cs:64-80 | a payload that cannot be bound raises and a null one is ignored; a bound one is relayed exactly when valid, to [From, To], excluding the source socket, as an envelope that parses back to {Type: "chat", Data} with Data unchanged |
| WsHandlers.RelayTargets | WsListener/WsMessageHandler.cs:77-79 | the relay reaches exactly the registered sockets of sender and receiver other than the source, each once |
| WsHandlers.WsMessageHandler.ProcessMessage | WsListener/WsMessageHandler.cs:29-55 | carries out the decision of Route: a relay writes to every BroadcastTargets socket and fails when one write fails; nothing is written otherwise, and an unbindable payload fails |
| RmqHandlers.UnknownTypeText | RmqListener/RmqMessageHandler.cs:32 | the error text ends with the unknown type in quotes |
| RmqHandlers.Route | RmqListener/RmqMessageHandler.cs:17-35 | a parse failure escapes; a null or invalid message leads to nothing, and nothing else does |
| RmqHandlers.RouteValid | RmqListener/RmqMessageHandler.cs:26-72 | a valid message is a notification exactly when its type is "notification" ignoring case, sent to its own Recipient as {Type: "notification", Data}; otherwise an error report {Type: "error", Data: {Message, Data}} to all; both envelopes parse back with Data unchanged |
| RmqHandlers.RmqMessageHandler.ProcessMessage | RmqListener/RmqMessageHandler.cs:17-35 | carries out the decision: a notification reaches the recipient's sockets, an error report every socket of every owner, under the default token; nothing is sent when the message is ignored or raises |
| RmqHandlers.ReportReachesEveryone | RmqListener/RmqMessageHandler.cs:45-51 | the error report reaches each registered socket exactly once and no other socket |
| ClientHandlers.Route | ClientMessages/ClientMessageHandler.cs:60-86 | a parse failure is caught and leads to nothing; the chat handler is reached exactly by a valid envelope of type chat_from_merchant ignoring case |
| ClientHandlers.ChatOf | ClientMessages/ClientMessageHandler.cs:97-100 | a payload that binds is used only when it is valid |
| ClientHandlers.PrototypeTargetsMeans | ClientMessages/ClientMessageHandler.cs:103-113 | when the source is an Open socket of the sender, the relay reaches exactly the receiver's Open sockets and the sender's other Open sockets; otherwise nobody |
| ClientHandlers.PrototypeTargetsCount | ClientMessages/ClientMessageHandler.cs:103-113 | when the source is an Open socket of the sender, each Open socket is written to once per list it is in: once for the receiver's owner, once more for the sender's owner unless it is the source; so when sender and receiver are the same owner, each of that owner's other Open sockets is written to twice |
| ClientHandlers.PrototypeEchoesToSource | ClientMessages/ClientMessageHandler.cs:103-113 | when sender and receiver are the same owner the source socket is still written to, once; otherwise it is not written to |
| ClientHandlers.ClientMessageHandler.ProcessFrontendChatMessage | ClientMessages/ClientMessageHandler.cs:95-121 | writes the ChatMsgFE text, not an envelope, to each PrototypeTargets socket, and fails when a write fails; nothing is written for a null or invalid payload, and an unbindable one fails |
| ClientHandlers.ClientMessageHandler.ProcessMessage | ClientMessages/ClientMessageHandler.cs:60-86 | carries out the decision of Route through ProcessFrontendChatMessage |
| Transport.Network.ReceiveAsync | Services/WsListener.cs:69 | one receive of at most the buffer's size takes the next chunk off the socket's inbox, and a close chunk moves the socket to CloseReceived; on an empty inbox (the peer dropped the connection) it raises and the socket is Aborted; nothing else changes |
| Receiving.LoopCancelled | Services/WsListener.cs:65-72 | when a poll reads cancelled before the message's last receive, the loop stops at that poll, after the chunks already taken, with the inbox those receives leave |
| Receiving.LoopFinished | Services/WsListener.cs:65-72 | when no poll reads cancelled, the loop takes the whole message at the head of the inbox in ChunkCount receives; it ends with the message's bytes and type when the peer sent all of it, and otherwise the last receive raises one chunk short |
| Receiving.LoopChunks | Services/WsListener.cs:61-70 | every chunk the loop writes to the stream is at most 4096 bytes, and together they are the bytes it collects |
| Receiving.ReceivedStep | Services/WsListener.cs:37-46 | a dropped connection or a close ends the texts handed on; any other message is the next text handed on exactly when it is non-empty text |
| Receiving.ReceiveStringAsync | Services/WsListener.cs:59-86 | the token is polled before each receive. When a poll reads cancelled, the result is cancellation after the chunks already taken. Otherwise the message is taken off the socket: each chunk at most 4096 bytes, their concatenation the message's bytes. If the peer sent all of it, the result is its decoding exactly when the last chunk is text and null otherwise, and a close moves the socket to CloseReceived; if the peer dropped the connection first, the last receive raises and the socket is Aborted; the copies at ClientMessages/ClientMessageHandler.cs:130-157 and NotificationWsMiddleware.cs:113-140 are the same code |
| Listener.KillSocket | Services/WsListener.cs:94-99 | removes the socket from the registry (as RemoveSocket), then closes under the loop's token: when the token has not fired, the close with NormalClosure and then the disposal are logged and the socket ends Closed; when it has, the close raises, nothing is logged, the socket is Aborted and never disposed, but it stays unregistered; the copy at ClientMessages/ClientMessageHandler.cs:165-170 is the same code |
| Listener.Listen | Services/WsListener.cs:30-50 | teardown runs exactly when the loop is left, because the peer closed or the token fired at the top of the loop, and then once, always unregistering the socket; it closes and disposes the socket (ending Closed) only when no poll of the token read true, so after the token fired at the top of the loop the close raises, nothing is logged and the socket is Aborted; an escaping exception (cancellation in the receive, a dropped connection, a failing handler) leaves the registry and the log as they were, and a dropped connection leaves the socket Aborted; on a socket that starts Open, the texts handed on are, in order, the peer's non-empty text messages, all of them when the peer closed or dropped; the copy at ClientMessages/ClientMessageHandler.cs:31-51 is the same code |
| Text.SplitCount | NotificationWsMiddleware.cs:81 | Split yields one more piece than there are separators |
| Text.SplitJoin | NotificationWsMiddleware.cs:81 | splitting pieces joined by the separator gives the pieces back when none holds it |
| Middleware.Decide | NotificationWsMiddleware.cs:79-88 | a broadcast to all exactly when the message does not hold exactly two '_', carrying "Wrong message format: " and the message |
| Middleware.DecideFields | NotificationWsMiddleware.cs:81-84 | from_to_text, with no '_' in the fields, sends text to owner "to" and to owner "from" |
| Middleware.TextWithSeparator | NotificationWsMiddleware.cs:85-87 | a text field holding '_' makes the message malformed |
| Middleware.WritablePrefix | NotificationWsMiddleware.cs:94-97 | the number of leading targets that are Open or CloseReceived, so the awaited sends get exactly that far |
| Middleware.TornDownIsSkipped | NotificationWsMiddleware.cs:72-73 | a socket whose id was removed from _sockets is no longer resolved from any owner list |
| Middleware.NotificationWsMiddleware.constructor | NotificationWsMiddleware.cs:15-17 | both dictionaries start empty |
| Middleware.NotificationWsMiddleware.Register | NotificationWsMiddleware.cs:35-45 | the new id is appended to the owner's list, or starts it; the socket is stored under the id unless the id is taken; the owner string is not checked |
| Middleware.NotificationWsMiddleware.RegisteredIsTargeted | NotificationWsMiddleware.cs:39-45 | a socket stored under one of the owner's ids is among the owner's broadcast targets |
| Middleware.NotificationWsMiddleware.BroadcastMessage | NotificationWsMiddleware.cs:90-98 | the owner's ids still in _sockets are written to in list order, whatever their state, stopping at the first one whose write raises (neither Open nor CloseReceived); success exactly when no write raised |
| Middleware.NotificationWsMiddleware.BroadcastMessageToAll | NotificationWsMiddleware.cs:99-104 | every stored socket that is Open is written to once, in enumeration order, and no other socket |
| Middleware.NotificationWsMiddleware.ProcessMessage | NotificationWsMiddleware.cs:79-88 | with three fields, BroadcastMessage to owner field[1] and then to owner field[0], failing if either fails; otherwise BroadcastMessageToAll of the format error |
| Middleware.NotificationWsMiddleware.Echo | NotificationWsMiddleware.cs:49-77 | leaving the loop normally removes the id from _sockets only, then closes and disposes the socket (ending Closed) only when no poll of the token read true; after the token fired at the top of the loop the close raises, nothing is logged and the socket is Aborted; an exception from the receive or from ProcessMessage leaves both dictionaries and the log as they were, and a dropped connection leaves the socket Aborted; the texts handed on are the peer's non-empty text messages, in order, all of them when the peer closed or dropped |
| Middleware.NotificationWsMiddleware.TearDown | NotificationWsMiddleware.cs:71-76 | the end of Echo: only the id's entry leaves _sockets and _owners is untouched; then, under Echo's token, either the close with NormalClosure and the disposal are logged in that order and the socket ends Closed, or (the token has fired) the close raises, nothing is logged and the socket is Aborted |
| Middleware.NotificationWsMiddleware.Invoke | NotificationWsMiddleware.cs:25-47 | registers the connection and echoes; the id stays in the owner's list in every case, and leaves _sockets exactly when Echo tears down; the log, the socket's final state (Closed after a completed teardown, Aborted after a cancelled close or a dropped connection) and the texts handed on are exactly Echo's |

## Left out

- Concurrency. ConcurrentDictionary, Task.Run, Task.WhenAll and async/await are modelled
  as sequential steps in program order. Interleavings, and concurrent writes to one
  socket, are not modelled.
- Fan-outs through Task.WhenAll: a failed write does not stop the later writes, and the
  call fails after all of them. A send is an append to the socket's outbox.
- The tokens passed to ReceiveAsync and SendAsync are not modelled: a receive or a write
  is never cancelled. Only the explicit `IsCancellationRequested` and
  `ThrowIfCancellationRequested` polls, and CloseAsync's check before it sends, read the
  token. A cancellation in the middle of the close handshake is not modelled either.
- Services.WebsocketManager.OwnerKeys: the enumeration order of `_owners.Keys` is left
  open. Every fan-out over the owner keys is stated for any order that lists each key
  once.
- Middleware.NotificationWsMiddleware.BroadcastMessageToAll: the same holds for its
  enumeration of `_sockets`.
- JSON and UTF-8 are abstract. The Codec's parse, serialise and decode functions stand
  for Newtonsoft.Json and Encoding.UTF8. The JSON grammar, and the conversion of the
  `Created` DateTime, are not modelled.
- WsHandlers.RouteChat and ClientHandlers.ChatOf: `Created` is bound as whatever JSON
  token the payload holds. In the source, a `created` that is null or not a date makes
  `DeserializeObject<ChatMsgFE>` raise (WsListener/WsMessageHandler.cs:67,
  ClientMessages/ClientMessageHandler.cs:98). The model relays such a payload instead.
- Text.EqualsIgnoreCase: it models invariant-culture case folding on the letters A to Z
  only.
- Text.ToLower: it lowers the letters A to Z only, under no particular culture. So do the
  three routers built on it: WsHandlers.Route, RmqHandlers.Route and ClientHandlers.Route
  (`msg.Type.ToLower()` at WsListener/WsMessageHandler.cs:46,
  RmqListener/RmqMessageHandler.cs:26 and ClientMessages/ClientMessageHandler.cs:77).
  The source's call depends on the current culture, and two cases route differently:
  - under a Turkish culture, "NOTIFICATION" lowers to a dotless-ı spelling, which the
    source reports as an unknown type and the model forwards;
  - "NOTİFİCATİON", with U+0130, lowers to "notification" in the source, and the model
    reports it.
- Text.IsGuid: it models Guid.TryParse on the N, D, B and P shapes. The X shape, and
  surrounding white space, are not accepted.
- Guid.NewGuid() is a parameter in the D shape, so whether a new id is unique is not
  assumed.
- ReceiveAsync on a socket that is neither Open nor CloseSent does not raise while the
  peer's frames last: it goes on delivering them. Only an inbox that has run out raises.
- Console logging is not modelled.
- The `_next` path of NotificationWsMiddleware.Invoke, for requests that are not
  WebSocket requests, is not modelled.
- Listener.Listen and Middleware.NotificationWsMiddleware.Echo do not state the outbox
  effect of the messages they hand on. Each handler's ProcessMessage states it for one
  message.
- The inner validity re-checks of RmqMessageHandler (RmqListener/RmqMessageHandler.cs:39-43
  and 57-61) cannot fire after the check at line 23, so they are not modelled as
  branches.
- The `ct` parameter of RmqMessageHandler.ProcessMessage is never used by the code. The
  handlers call the manager with the default token, which is never cancelled.
- NotificationMiddleware.cs, Program.cs, Startup.cs, RmqListener/RmqClient.cs,
  Interfaces/IWebsocketManager.cs and WsError.cs are not part of this model. They hold
  HTTP and queue plumbing, pipeline wiring, declarations and a data carrier.
