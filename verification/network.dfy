/**
 * The member directory (`pages/Network.tsx`): the skill chips built from
 * every member's skills, the search and chip filter, the chip toggle, and
 * the notifications the connect and mentorship buttons leave for the
 * signed-in user.
 */
module Network {
  import opened Wrappers
  import opened Types
  import Text
  import Seqs
  import Db
  import Navbar

  function SkillLists(users: seq<User>): (r: seq<seq<string>>)
    ensures |r| == |users| && forall i :: 0 <= i < |users| ==> r[i] == users[i].skills
  {
    seq(|users|, i requires 0 <= i < |users| => users[i].skills)
  }

  /** `allSkills`: every member's skills, each once, in the default sort order. */
  function AllSkills(users: seq<User>): (r: seq<string>)
    ensures Seqs.StrictlySorted(r)
    ensures forall s :: s in r <==> exists u :: u in users && s in u.skills
  {
    var flat := Seqs.Flatten(SkillLists(users));
    assert forall s :: s in flat <==> exists u :: u in users && s in u.skills by {
      forall s
        ensures s in flat <==> exists u :: u in users && s in u.skills
      {
        if exists u :: u in users && s in u.skills {
          var u :| u in users && s in u.skills;
          var i :| 0 <= i < |users| && users[i] == u;
          assert s in SkillLists(users)[i];
        }
      }
    }
    Seqs.SortedDistinct(flat)
  }

  /** The chips depend only on which members there are, not on the order they were loaded in. */
  lemma AllSkillsOrderFree(a: seq<User>, b: seq<User>)
    requires forall u :: u in a <==> u in b
    ensures AllSkills(a) == AllSkills(b)
  {
    Seqs.SortedUnique(AllSkills(a), AllSkills(b));
  }

  /** Every chip is a duplicate-free entry. */
  lemma AllSkillsDistinct(users: seq<User>)
    ensures Seqs.Distinct(AllSkills(users))
  {
    Seqs.StrictlySortedDistinct(AllSkills(users));
  }

  // ---------------------------------------------------------------- filter

  /** The search box: name or department or a skill, case-insensitively, or the batch as typed. */
  predicate MatchesSearch(u: User, term: string) {
    var t := Text.Lower(term);
    || Text.Contains(Text.Lower(u.name), t)
    || Text.Contains(Text.Lower(u.department), t)
    || Text.Contains(u.batch, term)
    || exists k :: k in u.skills && Text.Contains(Text.Lower(k), t)
  }

  /** The chip filter: a selected, non-empty skill must be among the member's skills. */
  predicate MatchesSkill(u: User, selected: Option<string>) {
    selected.None? || !Text.Truthy(selected.value) || selected.value in u.skills
  }

  /** `filteredUsers`: the members passing both the search and the chip, in directory order. */
  function FilteredUsers(users: seq<User>, term: string, selected: Option<string>): (r: seq<User>)
    ensures Seqs.Subseq(r, users)
    ensures forall u :: u in r <==> u in users && MatchesSearch(u, term) && MatchesSkill(u, selected)
    ensures forall u :: multiset(r)[u] == if MatchesSearch(u, term) && MatchesSkill(u, selected) then multiset(users)[u] else 0
    ensures selected.Some? && Text.Truthy(selected.value) ==> forall u :: u in r ==> selected.value in u.skills
  {
    Seqs.FilterSubseq(users, u => MatchesSearch(u, term) && MatchesSkill(u, selected));
    Seqs.Filter(users, u => MatchesSearch(u, term) && MatchesSkill(u, selected))
  }

  /** With an empty search box and no chip selected the whole directory is listed. */
  lemma NoFilterListsAll(users: seq<User>)
    ensures FilteredUsers(users, "", None) == users
  {
    forall u | u in users
      ensures MatchesSearch(u, "")
    {
      Text.ContainsEmpty(Text.Lower(u.name));
    }
    Seqs.FilterAll(users, u => MatchesSearch(u, "") && MatchesSkill(u, None));
  }

  /** Selecting a chip only narrows the list. */
  lemma ChipNarrows(users: seq<User>, term: string, skill: string)
    ensures forall u :: u in FilteredUsers(users, term, Some(skill)) ==> u in FilteredUsers(users, term, None)
  {
  }

  /** A chip click: the selected chip is deselected, any other one becomes the selection. */
  function ToggleSkill(selected: Option<string>, clicked: string): (r: Option<string>)
    ensures selected == Some(clicked) ==> r.None?
    ensures selected != Some(clicked) ==> r == Some(clicked)
  {
    if selected == Some(clicked) then None else Some(clicked)
  }

  /** Two clicks on the same chip return to no selection when it started unselected. */
  lemma ToggleTwice(selected: Option<string>, clicked: string)
    requires selected != Some(clicked)
    ensures ToggleSkill(ToggleSkill(selected, clicked), clicked).None?
  {
  }

  // ---------------------------------------------------------------- requests

  datatype RequestKind = ConnectRequest | MentorshipAsk

  /** The note a button leaves for the signed-in user. */
  function RequestNotice(me: Id, kind: RequestKind, userName: string): AppNotification {
    match kind
    case ConnectRequest =>
      AppNotification("", me, "Connection Sent", "You sent a connection request to " + userName + ".", Connection, 0, false, None)
    case MentorshipAsk =>
      AppNotification("", me, "Mentorship Requested", "You requested career guidance from " + userName + ".", Mentorship, 0, false, None)
  }

  /**
   * `handleConnect` / `handleMentorship`: with a signed-in user, an unread
   * notification of the matching kind, addressed to that user, is put in
   * front of the store's notifications; without one nothing is stored.
   */
  function SendRequest(st: Db.Store, authUser: Option<User>, kind: RequestKind, userName: string, now: nat): (r: Db.Store)
    ensures authUser.None? ==> r == st
    ensures authUser.Some? ==>
      && |r.notifications| == |st.notifications| + 1
      && r.notifications[1..] == st.notifications
      && r.notifications[0].userId == authUser.value.id
      && !r.notifications[0].isRead
      && r.notifications[0].kind == (if kind == ConnectRequest then Connection else Mentorship)
    ensures r == st.(notifications := r.notifications)
  {
    if authUser.None? then st else Db.AddNotification(st, RequestNotice(authUser.value.id, kind, userName), now)
  }

  /**
   * A request by a user with a (non-empty) id shows in that user's bell:
   * the new notice is listed and the unread count rises by one.
   */
  lemma RequestShowsInBell(st: Db.Store, u: User, kind: RequestKind, userName: string, now: nat)
    requires Text.Truthy(u.id)
    ensures var r := SendRequest(st, Some(u), kind, userName, now);
      && r.notifications[0] in Navbar.LoadNotifications(r, Some(u))
      && Navbar.UnreadCount(Navbar.LoadNotifications(r, Some(u)))
         == Navbar.UnreadCount(Navbar.LoadNotifications(st, Some(u))) + 1
  {
    var r := SendRequest(st, Some(u), kind, userName, now);
    var n := r.notifications[0];
    var a := Navbar.LoadNotifications(r, Some(u));
    var b := Navbar.LoadNotifications(st, Some(u));
    assert r.notifications == [n] + st.notifications;
    assert multiset(a) == multiset(b) + multiset{n} by {
      forall x
        ensures multiset(a)[x] == (multiset(b) + multiset{n})[x]
      {
      }
    }
    assert n in multiset(a);
    Navbar.UnreadCountAdd(a, b, n);
  }
}
