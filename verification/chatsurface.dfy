/**
 * The two chat surfaces over the socket provider: the floating widget
 * (`components/ChatWidget.tsx`) and the messages page (`pages/Messages.tsx`).
 * Both send through the provider with the same guard; the widget shows who
 * is online, the page lists members to talk to.
 */
module ChatSurface {
  import opened Wrappers
  import opened Types
  import Text
  import Seqs
  import Socket
  import App

  /** The widget renders only for a signed-in user. */
  function WidgetVisible(user: Option<User>): (r: bool)
    ensures r <==> user.Some?
  {
    user.Some?
  }

  /**
   * The widget shows exactly when the `RequireAuth` guard would render its
   * children, so it goes away on sign-out and appears after a successful
   * sign-in.
   */
  lemma WidgetFollowsSession(a: App.AppState, email: string, pass: string)
    ensures forall user :: WidgetVisible(user) <==> App.RequireAuth(user) == App.Render
    ensures !WidgetVisible(App.Logout(a).current)
    ensures App.Login(a, email, pass).1 ==> WidgetVisible(App.Login(a, email, pass).0.current)
  {
  }

  /** `onlineList`: the online ids other than the user's own, in the order received. */
  function OnlineList(online: seq<Id>, me: Id): (r: seq<Id>)
    ensures Seqs.Subseq(r, online)
    ensures forall id :: id in r <==> id in online && id != me
    ensures forall id :: multiset(r)[id] == if id != me then multiset(online)[id] else 0
  {
    Seqs.FilterSubseq(online, id => id != me);
    Seqs.Filter(online, id => id != me)
  }

  /** The green badge: shown exactly when someone other than the user is online. */
  function Badge(online: seq<Id>, me: Id): (r: bool)
    ensures r <==> exists id :: id in online && id != me
  {
    var l := OnlineList(online, me);
    assert l != [] ==> l[0] in l;
    l != []
  }

  /** Being alone online shows no badge, however often the own id was reported. */
  lemma AloneNoBadge(online: seq<Id>, me: Id)
    requires forall id :: id in online ==> id == me
    ensures !Badge(online, me)
  {
  }

  /** The widget's list always follows the latest presence snapshot. */
  lemma OnlineListFollowsSnapshot(s: Socket.ChatState, users: seq<Id>, me: Id)
    requires s.socket.Some?
    ensures OnlineList(Socket.Presence(s, users).online, me) == OnlineList(users, me)
  {
  }

  // ---------------------------------------------------------------- sending

  /**
   * `handleSend`, the same in both surfaces: with no (or an empty) active
   * conversation, or a blank message, nothing happens and the input stays.
   * Otherwise the message goes to the active peer and the input is cleared.
   */
  function HandleSend(s: Socket.ChatState, input: string, now: nat): (r: (Socket.ChatState, string))
    ensures s.active.None? || !Text.Truthy(s.active.value) || Text.IsBlank(input) ==> r == (s, input)
    ensures s.active.Some? && Text.Truthy(s.active.value) && !Text.IsBlank(input) ==>
      r.1 == "" && r.0 == Socket.Send(s, s.active.value, input, now)
  {
    if s.active.None? || !Text.Truthy(s.active.value) || Text.Trim(input) == [] then (s, input)
    else (Socket.Send(s, s.active.value, input, now), "")
  }

  /**
   * A send that passes the guard, in a connected session, both emits the
   * message and echoes it at the end of the open conversation, as the user's
   * own unread message.
   */
  lemma SendEchoesIntoConversation(s: Socket.ChatState, input: string, now: nat)
    requires Socket.Valid(s) && s.user.Some?
    requires s.active.Some? && Text.Truthy(s.active.value) && !Text.IsBlank(input)
    ensures var r := HandleSend(s, input, now).0;
      && r.outbox == s.outbox + [Socket.SendMessage(s.user.value, s.active.value, input)]
      && |r.messages| == |s.messages| + 1
      && r.messages[..|s.messages|] == s.messages
      && r.messages[|s.messages|].content == input
      && r.messages[|s.messages|].sender == s.user.value
      && !r.messages[|s.messages|].isRead
  {
  }

  // ---------------------------------------------------------------- messages page

  /** The page's sidebar: every member but the signed-in one (all of them when signed out). */
  function Sidebar(users: seq<User>, me: Option<Id>): (r: seq<User>)
    ensures Seqs.Subseq(r, users)
    ensures me.Some? ==> forall u :: u in r <==> u in users && u.id != me.value
    ensures me.Some? ==> forall u :: multiset(r)[u] == if u.id != me.value then multiset(users)[u] else 0
    ensures me.None? ==> r == users
  {
    if me.None? then
      Seqs.SubseqRefl(users);
      users
    else
      var id := me.value;
      Seqs.FilterSubseq(users, (u: User) => u.id != id);
      Seqs.Filter(users, (u: User) => u.id != id)
  }

  predicate MatchesSearch(u: User, term: string) {
    Text.Contains(Text.Lower(u.name), Text.Lower(term)) || Text.Contains(Text.Lower(u.department), Text.Lower(term))
  }

  /** `filteredUsers`: the sidebar members whose lower-cased name or department holds the term. */
  function FilteredUsers(sidebar: seq<User>, term: string): (r: seq<User>)
    ensures Seqs.Subseq(r, sidebar)
    ensures forall u :: u in r <==> u in sidebar && MatchesSearch(u, term)
    ensures forall u :: multiset(r)[u] == if MatchesSearch(u, term) then multiset(sidebar)[u] else 0
  {
    Seqs.FilterSubseq(sidebar, u => MatchesSearch(u, term));
    Seqs.Filter(sidebar, u => MatchesSearch(u, term))
  }

  /** An empty search box lists the whole sidebar. */
  lemma EmptySearchListsSidebar(sidebar: seq<User>)
    ensures FilteredUsers(sidebar, "") == sidebar
  {
    forall u | u in sidebar
      ensures MatchesSearch(u, "")
    {
      Text.ContainsEmpty(Text.Lower(u.name));
    }
    Seqs.FilterAll(sidebar, u => MatchesSearch(u, ""));
  }

  /** `u` is the earliest sidebar member with that id. */
  predicate FirstWithId(sidebar: seq<User>, id: Id, u: User) {
    exists k :: 0 <= k < |sidebar| && sidebar[k] == u && forall j :: 0 <= j < k ==> sidebar[j].id != id
  }

  /** `activeUser`: the first sidebar member whose id is the active conversation, if there is one. */
  function ActiveUser(sidebar: seq<User>, active: Option<Id>): (r: Option<User>)
    ensures r.Some? <==> active.Some? && exists u :: u in sidebar && u.id == active.value
    ensures r.Some? ==> r.value in sidebar && Some(r.value.id) == active
    ensures r.Some? ==> FirstWithId(sidebar, active.value, r.value)
  {
    if active.None? then None
    else Seqs.Find(sidebar, (u: User) => u.id == active.value)
  }

  /** Talking to oneself never shows a header on the page: the own id is not in the sidebar. */
  lemma SelfNeverActive(users: seq<User>, me: Id)
    ensures ActiveUser(Sidebar(users, Some(me)), Some(me)).None?
  {
  }

  /** The page's online dot for a listed member agrees with the widget's online list. */
  lemma OnlineDotAgrees(users: seq<User>, online: seq<Id>, me: Id)
    ensures forall u :: u in Sidebar(users, Some(me)) ==> (u.id in online <==> u.id in OnlineList(online, me))
  {
  }
}
