/**
 * The administrator's dashboard (`pages/AdminDashboard.tsx`): verifying and
 * deleting members through the record store, the member search, and the
 * three counters at the top of the page.
 */
module Admin {
  import opened Wrappers
  import opened Types
  import Text
  import Seqs
  import Db

  /**
   * `handleVerifyUser`: the shown member is stored back with the verification
   * flag flipped, and so is the signed-in user when it is that member.
   */
  function VerifyUser(st: Db.Store, u: User): (r: Db.Store)
    ensures |r.users| == |st.users|
    ensures forall i :: 0 <= i < |st.users| && st.users[i].id == u.id ==> r.users[i] == u.(isVerified := !u.isVerified)
    ensures forall i :: 0 <= i < |st.users| && st.users[i].id != u.id ==> r.users[i] == st.users[i]
    ensures r.jobs == st.jobs && r.events == st.events && r.posts == st.posts && r.notifications == st.notifications
    ensures st.authUser.Some? && st.authUser.value.id == u.id ==> r.authUser == Some(u.(isVerified := !u.isVerified))
    ensures !(st.authUser.Some? && st.authUser.value.id == u.id) ==> r.authUser == st.authUser
    ensures r == st.(users := r.users, authUser := r.authUser)
  {
    Db.UpdateUser(st, u.(isVerified := !u.isVerified))
  }

  /** A stored member verified with its current record differs from it in the flag alone. */
  lemma VerifyFlipsOnlyFlag(st: Db.Store, i: nat)
    requires i < |st.users|
    ensures var v := VerifyUser(st, st.users[i]).users[i];
      v.isVerified == !st.users[i].isVerified && v.(isVerified := st.users[i].isVerified) == st.users[i]
  {
  }

  /** Clicking the badge twice, on the refreshed record, leaves the member list as it was. */
  lemma VerifyTwiceRestores(st: Db.Store, u: User)
    requires forall i :: 0 <= i < |st.users| && st.users[i].id == u.id ==> st.users[i] == u
    ensures VerifyUser(VerifyUser(st, u), u.(isVerified := !u.isVerified)).users == st.users
  {
    var r := VerifyUser(VerifyUser(st, u), u.(isVerified := !u.isVerified));
    assert forall i :: 0 <= i < |st.users| ==> r.users[i] == st.users[i];
  }

  /** `handleDeleteUser`: the member is removed only when the confirmation is accepted. */
  function DeleteUser(st: Db.Store, id: Id, confirmed: bool): (r: Db.Store)
    ensures !confirmed ==> r == st
    ensures confirmed ==> forall u :: u in r.users <==> u in st.users && u.id != id
    ensures confirmed ==> forall u :: multiset(r.users)[u] == if u.id != id then multiset(st.users)[u] else 0
    ensures Seqs.Subseq(r.users, st.users)
    ensures r == st.(users := r.users)
  {
    if confirmed then Db.DeleteUser(st, id)
    else
      Seqs.SubseqRefl(st.users);
      st
  }

  /** `filteredUsers`: the members whose lower-cased name holds the lower-cased term, in order. */
  function FilteredUsers(users: seq<User>, term: string): (r: seq<User>)
    ensures Seqs.Subseq(r, users)
    ensures forall u :: u in r <==> u in users && Text.Contains(Text.Lower(u.name), Text.Lower(term))
    ensures forall u :: multiset(r)[u] == if Text.Contains(Text.Lower(u.name), Text.Lower(term)) then multiset(users)[u] else 0
  {
    Seqs.FilterSubseq(users, (u: User) => Text.Contains(Text.Lower(u.name), Text.Lower(term)));
    Seqs.Filter(users, (u: User) => Text.Contains(Text.Lower(u.name), Text.Lower(term)))
  }

  /** An empty search box lists every member. */
  lemma EmptySearchListsAll(users: seq<User>)
    ensures FilteredUsers(users, "") == users
  {
    forall u | u in users
      ensures Text.Contains(Text.Lower(u.name), Text.Lower(""))
    {
      Text.ContainsEmpty(Text.Lower(u.name));
    }
    Seqs.FilterAll(users, (u: User) => Text.Contains(Text.Lower(u.name), Text.Lower("")));
  }

  /** The counters: total members, active jobs, upcoming events. */
  datatype Stats = Stats(members: nat, jobs: nat, events: nat)

  function StatsOf(st: Db.Store): Stats {
    Stats(|st.users|, |st.jobs|, |st.events|)
  }

  /** Verifying a member moves no counter. */
  lemma VerifyKeepsStats(st: Db.Store, u: User)
    ensures StatsOf(VerifyUser(st, u)) == StatsOf(st)
  {
  }

  /** A confirmed deletion of a listed member lowers the member count and no other. */
  lemma DeleteLowersMembers(st: Db.Store, id: Id)
    requires exists u :: u in st.users && u.id == id
    ensures var s := StatsOf(DeleteUser(st, id, true));
      s.members < StatsOf(st).members && s.jobs == |st.jobs| && s.events == |st.events|
  {
    var u :| u in st.users && u.id == id;
    Seqs.FilterDrops(st.users, (v: User) => v.id != id, u);
  }
}
