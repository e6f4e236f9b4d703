/**
 * The chat and presence provider of `context/SocketContext.tsx`, as a state
 * machine over one record. The provider keeps the signed-in user's id, the
 * socket it opened, the online list, the buffer of the open conversation and
 * the active peer. Socket.io connections are numbered handles, and the set
 * of open ones is kept so the one-connection property can be stated. What
 * the client emits goes to an outbox log. The server's date parsing
 * (`new Date(createdAt).getTime()`) is the function parameter `toMillis`.
 *
 * The connection effect depends on both the user and the active
 * conversation. So selecting a conversation also closes the socket and
 * opens a new one, and the new socket's receive handler sees the new
 * active id.
 */
module Socket {
  import opened Wrappers
  import opened Types
  import Text

  /** The events the client emits upstream. */
  datatype Outbound = Join(userId: Id) | SendMessage(sender: Id, receiver: Id, content: string)

  /** A message as the server delivers it, live or from the history endpoint. */
  datatype WireMessage = WireMessage(
    serverId: Id,
    sender: Id,
    receiver: Id,
    content: string,
    isRead: bool,
    createdAt: string)

  datatype ChatState = ChatState(
    user: Option<Id>,
    socket: Option<nat>,
    cleanup: Option<nat>,
    live: set<nat>,
    nextHandle: nat,
    handlerActive: Option<Id>,
    online: seq<Id>,
    messages: seq<Message>,
    active: Option<Id>,
    outbox: seq<Outbound>)

  /** The provider on mount: no user, no socket, nothing online, an empty buffer. */
  function Init(): ChatState {
    ChatState(None, None, None, {}, 0, None, [], [], None, [])
  }

  /**
   * The states the provider can be in between events. There is at most one
   * open socket; it is the one held in state and the one the next effect
   * run will close. It exists exactly while a user is signed in, and its
   * receive handler saw the current active conversation.
   */
  predicate Valid(s: ChatState) {
    && s.cleanup == s.socket
    && (s.socket.None? ==> s.live == {} && s.user.None?)
    && (s.socket.Some? ==>
          && s.live == {s.socket.value}
          && s.socket.value < s.nextHandle
          && s.user.Some?
          && s.handlerActive == s.active)
  }

  lemma InitValid()
    ensures Valid(Init())
  {
  }

  /** The one-connection property: a valid state has at most one open socket. */
  lemma AtMostOneConnection(s: ChatState)
    requires Valid(s)
    ensures |s.live| <= 1
  {
  }

  // ---------------------------------------------------------------- connection effect

  /**
   * One run of the connection effect. The previous run's cleanup closes its
   * socket. With a user, a new socket is opened, stored and announced with
   * `join`. Without one, the socket in state is closed and cleared.
   */
  function ConnectionEffect(s: ChatState): (r: ChatState)
    ensures Valid(s) && (s.user.Some? <==> s.socket.Some?) ==> Valid(r)
    ensures s.user.Some? ==>
      && r.socket == Some(s.nextHandle)
      && r.live == (s.live - (if s.cleanup.Some? then {s.cleanup.value} else {})) + {s.nextHandle}
      && r.outbox == s.outbox + [Join(s.user.value)]
      && r.handlerActive == s.active
    ensures s.user.None? ==> r.socket.None? && r.outbox == s.outbox
    ensures r.user == s.user && r.online == s.online && r.messages == s.messages && r.active == s.active
  {
    var closed := if s.cleanup.Some? then s.live - {s.cleanup.value} else s.live;
    var s1 := s.(live := closed, cleanup := None);
    if s.user.Some? then
      var h := s1.nextHandle;
      s1.(live := s1.live + {h}, socket := Some(h), cleanup := Some(h), nextHandle := h + 1,
          handlerActive := s1.active, outbox := s1.outbox + [Join(s.user.value)])
    else
      s1.(live := if s1.socket.Some? then s1.live - {s1.socket.value} else s1.live, socket := None)
  }

  /** A valid state where the user was just replaced, before the effect has run. */
  predicate Pending(s: ChatState) {
    && s.cleanup == s.socket
    && (s.socket.None? ==> s.live == {})
    && (s.socket.Some? ==> s.live == {s.socket.value} && s.socket.value < s.nextHandle)
  }

  /**
   * Every effect run closes whatever socket was open before it: the sockets
   * open afterwards are at most the one it created.
   */
  lemma EffectClosesPrevious(s: ChatState)
    requires Pending(s)
    ensures ConnectionEffect(s).live !! s.live
    ensures |ConnectionEffect(s).live| <= 1
  {
  }

  lemma EffectValid(s: ChatState)
    requires Pending(s)
    ensures Valid(ConnectionEffect(s))
  {
  }

  /**
   * The signed-in user changes (sign-in, sign-out, registration), and both
   * effects depending on it run. The conversation buffer and the active
   * conversation are kept as they were.
   */
  function SetUser(s: ChatState, u: Option<Id>): (r: ChatState)
    requires Valid(s)
    ensures Valid(r)
    ensures r.user == u
    ensures r.messages == s.messages && r.active == s.active && r.online == s.online
    ensures u.Some? ==> r.live == {s.nextHandle} && r.outbox == s.outbox + [Join(u.value)]
    ensures u.None? ==> r.live == {} && r.socket.None? && r.outbox == s.outbox
  {
    if u.None? && s.user.None? then s
    else
      var p := s.(user := u);
      EffectValid(p);
      ConnectionEffect(p)
  }

  /**
   * `setActiveConversationId`: a new value re-runs the connection effect, so
   * the socket is replaced and its handler sees the new peer. Setting the
   * same value again changes nothing, as React skips an unchanged state.
   */
  function SelectConversation(s: ChatState, peer: Option<Id>): (r: ChatState)
    requires Valid(s)
    ensures Valid(r)
    ensures r.active == peer
    ensures r.user == s.user && r.messages == s.messages && r.online == s.online
    ensures peer != s.active && s.user.Some? ==> r.live == {s.nextHandle} && r.outbox == s.outbox + [Join(s.user.value)]
    ensures peer == s.active ==> r == s
  {
    if peer == s.active then s
    else
      var p := s.(active := peer);
      EffectValid(p);
      ConnectionEffect(p)
  }

  /**
   * The history effect: a fetch for the active peer is issued exactly when
   * there is a (truthy) active conversation and a signed-in user.
   */
  function FetchFor(s: ChatState): (r: Option<Id>)
    ensures r.Some? <==> s.active.Some? && Text.Truthy(s.active.value) && s.user.Some?
    ensures r.Some? ==> s.active == r
  {
    if s.active.Some? && Text.Truthy(s.active.value) && s.user.Some? then s.active else None
  }

  /** Unmounting the provider runs the last cleanup: no socket stays open. */
  function Unmount(s: ChatState): (r: ChatState)
    requires Valid(s)
    ensures r.live == {}
  {
    if s.cleanup.Some? then s.(live := s.live - {s.cleanup.value}, cleanup := None) else s
  }

  // ---------------------------------------------------------------- inbound events

  /** The `onlineUsers` handler: the snapshot replaces the online list. Only an open socket delivers it. */
  function Presence(s: ChatState, users: seq<Id>): (r: ChatState)
    ensures s.socket.Some? ==> r.online == users
    ensures s.socket.None? ==> r == s
    ensures r == s.(online := r.online)
    ensures Valid(s) ==> Valid(r)
  {
    if s.socket.Some? then s.(online := users) else s
  }

  /** Presence is a replacement, not a merge: of two snapshots only the later one counts. */
  lemma PresenceLastWins(s: ChatState, a: seq<Id>, b: seq<Id>)
    ensures Presence(Presence(s, a), b) == Presence(s, b)
  {
  }

  /** A message as the buffer stores it: the server id as `id`, the creation time in milliseconds. */
  function FromWire(w: WireMessage, toMillis: string -> int): (m: Message)
    ensures m.sender == w.sender && m.receiver == w.receiver && m.content == w.content
    ensures m.id == w.serverId && m.isRead == w.isRead && m.timestamp == toMillis(w.createdAt)
  {
    Message(w.serverId, w.sender, w.receiver, w.content, w.isRead, toMillis(w.createdAt))
  }

  /** The receive filter: a truthy active peer that is the message's sender or receiver. */
  predicate Accepts(active: Option<Id>, w: WireMessage) {
    active.Some? && Text.Truthy(active.value) && (w.sender == active.value || w.receiver == active.value)
  }

  /**
   * The `receiveMessage` handler: a message of the active conversation is
   * appended to the buffer; any other one is dropped.
   */
  function Receive(s: ChatState, w: WireMessage, toMillis: string -> int): (r: ChatState)
    ensures Valid(s) && s.socket.Some? && Accepts(s.active, w) ==>
      r.messages == s.messages + [FromWire(w, toMillis)]
    ensures !(s.socket.Some? && Accepts(s.handlerActive, w)) ==> r == s
    ensures r == s.(messages := r.messages)
    ensures Valid(s) ==> Valid(r)
  {
    if s.socket.Some? && Accepts(s.handlerActive, w) then s.(messages := s.messages + [FromWire(w, toMillis)])
    else s
  }

  /** Converts a fetched history list element by element. */
  function HistoryMessages(data: seq<WireMessage>, toMillis: string -> int): (ms: seq<Message>)
    ensures |ms| == |data|
    ensures forall i :: 0 <= i < |data| ==> ms[i] == FromWire(data[i], toMillis)
  {
    seq(|data|, i requires 0 <= i < |data| => FromWire(data[i], toMillis))
  }

  /**
   * A history fetch completing, as written: a successful response replaces
   * the buffer whatever the active conversation is now; a failed one leaves
   * it as it was.
   */
  function HistoryLoaded(s: ChatState, result: Option<seq<WireMessage>>, toMillis: string -> int): (r: ChatState)
    ensures result.None? ==> r == s
    ensures result.Some? ==> r.messages == HistoryMessages(result.value, toMillis)
    ensures r == s.(messages := r.messages)
    ensures Valid(s) ==> Valid(r)
  {
    if result.Some? then s.(messages := HistoryMessages(result.value, toMillis)) else s
  }

  /**
   * A history fetch completing, tagged with the peer it was issued for: the
   * response replaces the buffer only while that peer is still the active
   * conversation of a signed-in user; a stale or failed response is dropped.
   */
  function HistoryLoadedFor(s: ChatState, peer: Id, result: Option<seq<WireMessage>>, toMillis: string -> int): (r: ChatState)
    ensures s.active != Some(peer) || s.user.None? || result.None? ==> r == s
    ensures s.active == Some(peer) && s.user.Some? && result.Some? ==>
      r.messages == HistoryMessages(result.value, toMillis)
    ensures r == s.(messages := r.messages)
    ensures Valid(s) ==> Valid(r)
  {
    if s.active == Some(peer) && s.user.Some? then HistoryLoaded(s, result, toMillis) else s
  }

  /**
   * The untagged completion lets a late response for a previous peer
   * overwrite the buffer of the peer now selected: here the buffer ends up
   * holding a message between "me" and "alice" while "bob" is active.
   */
  lemma StaleHistoryOverwrites(toMillis: string -> int)
    ensures
      var s1 := SetUser(Init(), Some("me"));
      var s2 := SelectConversation(s1, Some("alice"));
      var s3 := SelectConversation(s2, Some("bob"));
      var w := WireMessage("m1", "alice", "me", "hi", false, "2024-01-01");
      var s4 := HistoryLoaded(s3, Some([w]), toMillis);
      && FetchFor(s2) == Some("alice")
      && s4.active == Some("bob")
      && s4.messages == [FromWire(w, toMillis)]
      && !Accepts(s4.active, w)
  {
    InitValid();
  }

  /** With the tagged completion, the same late response leaves the buffer alone. */
  lemma TaggedHistoryIgnoresStale(s: ChatState, peer: Id, result: Option<seq<WireMessage>>, toMillis: string -> int)
    requires s.active != Some(peer)
    ensures HistoryLoadedFor(s, peer, result, toMillis) == s
  {
  }

  // ---------------------------------------------------------------- sending

  /**
   * `sendMessage`: with no socket or no user, nothing at all happens.
   * Otherwise the message is emitted, and if the receiver is the active
   * peer it is also echoed into the buffer, unread, under a temporary id
   * made from the clock.
   */
  function Send(s: ChatState, receiver: Id, content: string, now: nat): (r: ChatState)
    ensures s.socket.None? || s.user.None? ==> r == s
    ensures s.socket.Some? && s.user.Some? ==>
      && r.outbox == s.outbox + [SendMessage(s.user.value, receiver, content)]
      && (s.active == Some(receiver) ==>
            r.messages == s.messages + [Message(Text.Decimal(now), s.user.value, receiver, content, false, now)])
      && (s.active != Some(receiver) ==> r.messages == s.messages)
    ensures r == s.(outbox := r.outbox, messages := r.messages)
    ensures Valid(s) ==> Valid(r)
  {
    if s.socket.Some? && s.user.Some? then
      var u := s.user.value;
      var echoed := if s.active == Some(receiver)
        then s.messages + [Message(Text.Decimal(now), u, receiver, content, false, now)]
        else s.messages;
      s.(outbox := s.outbox + [SendMessage(u, receiver, content)], messages := echoed)
    else s
  }

  // ---------------------------------------------------------------- sign-out

  /**
   * Signing out keeps the previous user's conversation: after "me" signs out
   * and "other" signs in, the buffer still holds the three messages and
   * "u42" is still the active conversation.
   */
  lemma SignOutKeepsConversation(s: ChatState)
    requires Valid(s) && s.active == Some("u42") && |s.messages| == 3
    ensures
      var s1 := SetUser(s, None);
      var s2 := SetUser(s1, Some("other"));
      s2.messages == s.messages && s2.active == Some("u42") && s1.live == {}
  {
  }

  /**
   * As written, the presence list survives a sign-out too: the next user to
   * sign in is shown the previous session's online members until the server
   * sends a fresh snapshot.
   */
  lemma SignOutKeepsPresence(s: ChatState)
    requires Valid(s) && s.online == ["u7", "u9"]
    ensures
      var s2 := SetUser(SetUser(s, None), Some("other"));
      s2.online == ["u7", "u9"] && s2.user == Some("other")
  {
  }

  /**
   * A change of user that starts the new session clean: the buffer is
   * emptied, no conversation is active and nobody is listed online until the
   * new socket's first snapshot; then the connection effect runs.
   */
  function SetUserFresh(s: ChatState, u: Option<Id>): (r: ChatState)
    requires Valid(s)
    ensures Valid(r)
    ensures r.user == u
    ensures u != s.user ==> r.messages == [] && r.active.None? && r.online == []
    ensures u == s.user ==> r == SetUser(s, u)
    ensures u.None? ==> r.live == {} && r.socket.None?
    ensures u.Some? ==> r.live == {s.nextHandle} && r.outbox == s.outbox + [Join(u.value)]
  {
    if u == s.user then SetUser(s, u)
    else
      var p := s.(user := u, messages := [], active := None, online := []);
      EffectValid(p);
      ConnectionEffect(p)
  }

  /** With the clean change of user, signing out and back in starts with an empty buffer, no peer and nobody online. */
  lemma SignOutStartsClean(s: ChatState, other: Id)
    requires Valid(s) && s.user.Some?
    ensures
      var s2 := SetUserFresh(SetUserFresh(s, None), Some(other));
      s2.messages == [] && s2.active.None? && s2.online == [] && s2.user == Some(other)
  {
  }

  // ---------------------------------------------------------------- event traces

  /** Everything that can happen to the provider, one constructor per effect or handler. */
  datatype ChatEvent =
    | UserChanged(u: Option<Id>)
    | Selected(peer: Option<Id>)
    | PresenceSnapshot(users: seq<Id>)
    | Inbound(w: WireMessage)
    | HistoryArrived(forPeer: Id, result: Option<seq<WireMessage>>)
    | Sent(receiver: Id, content: string, now: nat)
    | Unmounted

  /** One event, with the two corrected transitions (clean sign-out, tagged history). */
  function Step(s: ChatState, e: ChatEvent, toMillis: string -> int): (r: ChatState)
    requires Valid(s)
    ensures Valid(r) || e.Unmounted?
    ensures |r.live| <= 1
  {
    match e
    case UserChanged(u) => SetUserFresh(s, u)
    case Selected(peer) => SelectConversation(s, peer)
    case PresenceSnapshot(users) => Presence(s, users)
    case Inbound(w) => Receive(s, w, toMillis)
    case HistoryArrived(peer, result) => HistoryLoadedFor(s, peer, result, toMillis)
    case Sent(receiver, content, now) => Send(s, receiver, content, now)
    case Unmounted => Unmount(s)
  }

  /** Runs a trace of events up to the provider's unmount. */
  function Run(s: ChatState, events: seq<ChatEvent>, toMillis: string -> int): (r: ChatState)
    requires Valid(s)
    requires forall i :: 0 <= i < |events| ==> !events[i].Unmounted?
    ensures Valid(r)
    ensures |r.live| <= 1
    decreases |events|
  {
    if events == [] then s
    else Run(Step(s, events[0], toMillis), events[1..], toMillis)
  }
}
