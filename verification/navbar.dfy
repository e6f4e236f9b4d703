/**
 * The navigation bar (`components/Navbar.tsx`): the global search over
 * users, jobs and events, and the notification bell with its unread
 * badge, "mark as read" and "clear all".
 */
module Navbar {
  import opened Wrappers
  import opened Types
  import Text
  import Seqs
  import Db

  /** How many hits of each kind the search shows. */
  const ResultCap: nat := 3

  /** The normalised query: lower-cased, then trimmed. */
  function Query(searchQuery: string): string {
    Text.Trim(Text.Lower(searchQuery))
  }

  /** A user hit: the query occurs in the lower-cased name or department, or in the batch as typed. */
  predicate UserMatches(u: User, q: string) {
    Text.Contains(Text.Lower(u.name), q) || Text.Contains(Text.Lower(u.department), q) || Text.Contains(u.batch, q)
  }

  predicate JobMatches(j: Job, q: string) {
    Text.Contains(Text.Lower(j.title), q) || Text.Contains(Text.Lower(j.company), q)
  }

  predicate EventMatches(e: Event, q: string) {
    Text.Contains(Text.Lower(e.title), q)
  }

  datatype Results = Results(users: seq<User>, jobs: seq<Job>, events: seq<Event>)

  /** The first `cap` elements of `s` that satisfy `p`, in order. */
  function FirstMatches<T(==,!new)>(s: seq<T>, p: T -> bool, cap: nat): (r: seq<T>)
    ensures |r| <= cap
    ensures Seqs.Subseq(r, s)
    ensures forall x :: x in r ==> x in s && p(x)
    ensures |r| < cap ==> forall x :: x in s && p(x) ==> x in r
    ensures Seqs.FirstCapOf(r, s, p, cap)
  {
    var all := Seqs.Filter(s, p);
    Seqs.FilterSubseq(s, p);
    Seqs.TakeSubseq(all, cap);
    Seqs.SubseqTrans(Seqs.Take(all, cap), all, s);
    assert forall x :: x in Seqs.Take(all, cap) ==> x in all;
    Seqs.Take(all, cap)
  }

  /**
   * The global search: nothing for a blank query; otherwise, per kind, up
   * to three matching records in store order, and every match when fewer
   * than three were found.
   */
  function Search(st: Db.Store, searchQuery: string): (r: Results)
    ensures Query(searchQuery) == [] ==> r == Results([], [], [])
    ensures |r.users| <= ResultCap && |r.jobs| <= ResultCap && |r.events| <= ResultCap
    ensures Seqs.Subseq(r.users, st.users) && Seqs.Subseq(r.jobs, st.jobs) && Seqs.Subseq(r.events, st.events)
    ensures forall u :: u in r.users ==> UserMatches(u, Query(searchQuery))
    ensures forall j :: j in r.jobs ==> JobMatches(j, Query(searchQuery))
    ensures forall e :: e in r.events ==> EventMatches(e, Query(searchQuery))
    ensures Query(searchQuery) != [] ==>
      && Seqs.FirstCapOf(r.users, st.users, (u: User) => UserMatches(u, Query(searchQuery)), ResultCap)
      && Seqs.FirstCapOf(r.jobs, st.jobs, (j: Job) => JobMatches(j, Query(searchQuery)), ResultCap)
      && Seqs.FirstCapOf(r.events, st.events, (e: Event) => EventMatches(e, Query(searchQuery)), ResultCap)
    ensures Query(searchQuery) != [] ==>
      && (|r.users| < ResultCap ==> forall u :: u in st.users && UserMatches(u, Query(searchQuery)) ==> u in r.users)
      && (|r.jobs| < ResultCap ==> forall j :: j in st.jobs && JobMatches(j, Query(searchQuery)) ==> j in r.jobs)
      && (|r.events| < ResultCap ==> forall e :: e in st.events && EventMatches(e, Query(searchQuery)) ==> e in r.events)
  {
    var q := Query(searchQuery);
    if |q| > 0 then
      Results(
        FirstMatches(st.users, (u: User) => UserMatches(u, Query(searchQuery)), ResultCap),
        FirstMatches(st.jobs, (j: Job) => JobMatches(j, Query(searchQuery)), ResultCap),
        FirstMatches(st.events, (e: Event) => EventMatches(e, Query(searchQuery)), ResultCap))
    else
      Seqs.SubseqRefl<User>([]);
      Results([], [], [])
  }

  /** A query of white space only finds nothing, whatever the store holds. */
  lemma BlankQueryFindsNothing(st: Db.Store, searchQuery: string)
    requires Text.IsBlank(searchQuery)
    ensures Search(st, searchQuery) == Results([], [], [])
  {
    var l := Text.Lower(searchQuery);
    assert Text.IsBlank(l) by {
      forall i | 0 <= i < |l| ensures Text.IsSpace(l[i]) {
        assert Text.IsSpace(searchQuery[i]);
      }
    }
  }

  /** Case does not matter to the user search on names and departments. */
  lemma UserSearchIgnoresCase(st: Db.Store, a: string, b: string)
    requires Text.Lower(a) == Text.Lower(b)
    ensures Search(st, a).users == Search(st, b).users
  {
  }

  // ---------------------------------------------------------------- notifications

  predicate IsUnread(n: AppNotification) {
    !n.isRead
  }

  /** `unreadCount`: how many of the listed notifications are unread. */
  function UnreadCount(ns: seq<AppNotification>): (r: nat)
    ensures r <= |ns|
    ensures r == 0 <==> forall n :: n in ns ==> n.isRead
  {
    var unread := Seqs.Filter(ns, IsUnread);
    assert unread != [] ==> unread[0] in unread;
    |unread|
  }

  /** The count of a non-empty list: its head's share plus the count of the rest. */
  lemma UnreadCountCons(ns: seq<AppNotification>)
    requires ns != []
    ensures UnreadCount(ns) == (if ns[0].isRead then 0 else 1) + UnreadCount(ns[1..])
  {
    assert Seqs.Filter(ns, IsUnread) == (if IsUnread(ns[0]) then [ns[0]] else []) + Seqs.Filter(ns[1..], IsUnread);
  }

  /** The count depends only on what is listed: one more unread notification counts one more. */
  lemma UnreadCountAdd(a: seq<AppNotification>, b: seq<AppNotification>, n: AppNotification)
    requires multiset(a) == multiset(b) + multiset{n}
    requires !n.isRead
    ensures UnreadCount(a) == UnreadCount(b) + 1
  {
    var fa := Seqs.Filter(a, IsUnread);
    var fb := Seqs.Filter(b, IsUnread);
    assert multiset(fa) == multiset(fb) + multiset{n} by {
      forall x
        ensures multiset(fa)[x] == (multiset(fb) + multiset{n})[x]
      {
      }
    }
    assert |multiset(fa)| == |multiset(fb)| + 1;
  }

  /**
   * Marking notifications read never raises the count, and lowers it when
   * an unread notification carried the id.
   */
  lemma {:induction false} MarkReadLowersCount(ns: seq<AppNotification>, ms: seq<AppNotification>, id: Id)
    requires |ms| == |ns|
    requires forall i :: 0 <= i < |ns| ==> ms[i] == ns[i].(isRead := ns[i].isRead || ns[i].id == id)
    ensures UnreadCount(ms) <= UnreadCount(ns)
    ensures (exists i :: 0 <= i < |ns| && ns[i].id == id && !ns[i].isRead) ==> UnreadCount(ms) < UnreadCount(ns)
    decreases |ns|
  {
    if ns != [] {
      var ns', ms' := ns[1..], ms[1..];
      assert forall i :: 0 <= i < |ns'| ==> ms'[i] == ns'[i].(isRead := ns'[i].isRead || ns'[i].id == id) by {
        forall i | 0 <= i < |ns'| ensures ms'[i] == ns'[i].(isRead := ns'[i].isRead || ns'[i].id == id) {
          assert ms'[i] == ms[i + 1] && ns'[i] == ns[i + 1];
        }
      }
      MarkReadLowersCount(ns', ms', id);
      UnreadCountCons(ns);
      UnreadCountCons(ms);
      if exists i :: 0 <= i < |ns| && ns[i].id == id && !ns[i].isRead {
        var i :| 0 <= i < |ns| && ns[i].id == id && !ns[i].isRead;
        if i > 0 {
          assert ns'[i - 1] == ns[i];
        }
      }
    }
  }

  /** The bell's list: the user's notifications from the store, or none without a user. */
  function LoadNotifications(st: Db.Store, user: Option<User>): (r: seq<AppNotification>)
    ensures user.None? ==> r == []
    ensures user.Some? && !Text.Truthy(user.value.id) ==> r == st.notifications
    ensures user.Some? && Text.Truthy(user.value.id) ==>
      && Seqs.Descending(r, Db.NoticeTime)
      && (forall n :: n in r <==> n in st.notifications && n.userId == user.value.id)
      && (forall n :: multiset(r)[n] == if n.userId == user.value.id then multiset(st.notifications)[n] else 0)
  {
    if user.Some? then Db.GetNotifications(st, Some(user.value.id)) else []
  }

  /** The bell's state next to the store: what it lists. */
  datatype Bell = Bell(st: Db.Store, listed: seq<AppNotification>)

  /** `markAsRead`: the store marks the id read; with a user the list is read back from the store. */
  function MarkAsRead(b: Bell, user: Option<User>, id: Id): (r: Bell)
    ensures r.st == Db.MarkNotificationRead(b.st, id)
    ensures user.None? ==> r.listed == b.listed
    ensures user.Some? ==> r.listed == LoadNotifications(r.st, user)
    ensures user.Some? && Text.Truthy(user.value.id) ==>
      && (forall n :: n in r.listed ==> n.userId == user.value.id)
      && (forall n :: n in r.listed && n.id == id ==> n.isRead)
  {
    var st := Db.MarkNotificationRead(b.st, id);
    MarkedAreRead(b.st, id);
    Bell(st, if user.Some? then LoadNotifications(st, user) else b.listed)
  }

  lemma MarkedAreRead(st: Db.Store, id: Id)
    ensures forall n :: n in Db.MarkNotificationRead(st, id).notifications && n.id == id ==> n.isRead
  {
    var ms := Db.MarkNotificationRead(st, id).notifications;
    forall n | n in ms && n.id == id
      ensures n.isRead
    {
      var i :| 0 <= i < |ms| && ms[i] == n;
    }
  }

  /** In the store, marking a notification read never raises the unread count. */
  lemma StoreMarkLowersUnread(st: Db.Store, id: Id)
    ensures UnreadCount(Db.MarkNotificationRead(st, id).notifications) <= UnreadCount(st.notifications)
  {
    MarkReadLowersCount(st.notifications, Db.MarkNotificationRead(st, id).notifications, id);
  }

  /** `clearAll`: with a user, the store drops the user's notifications and the list empties; without one nothing happens. */
  function ClearAll(b: Bell, user: Option<User>): (r: Bell)
    ensures user.None? ==> r == b
    ensures user.Some? ==> r.listed == [] && UnreadCount(r.listed) == 0
    ensures user.Some? ==>
      forall n :: n in r.st.notifications <==> n in b.st.notifications && n.userId != user.value.id
    ensures user.Some? ==>
      forall n :: multiset(r.st.notifications)[n] == if n.userId != user.value.id then multiset(b.st.notifications)[n] else 0
    ensures user.Some? ==> Seqs.Subseq(r.st.notifications, b.st.notifications)
    ensures r.st == b.st.(notifications := r.st.notifications)
  {
    if user.Some? then Bell(Db.ClearAllNotifications(b.st, user.value.id), []) else b
  }

  /** After "clear all", reopening the bell (which reloads it) still lists nothing. */
  lemma ClearAllThenReload(b: Bell, user: Option<User>)
    requires user.Some? && Text.Truthy(user.value.id)
    ensures LoadNotifications(ClearAll(b, user).st, user) == []
  {
    Db.ClearThenGetIsEmpty(b.st, user.value.id);
  }
}
