/**
 * The profile page (`pages/Profile.tsx`): who owns the page, the editing
 * helpers that change the edit copy of the profile, saving it, and the
 * list of the profile's posts. Each helper does nothing while there is no
 * edit copy (`editedUser` is null until the profile has loaded).
 */
module Profile {
  import opened Wrappers
  import opened Types
  import Text
  import Seqs
  import Db

  /** The page belongs to the signed-in user exactly when the route's id is theirs. */
  function IsOwner(authUser: Option<User>, routeId: Id): (r: bool)
    ensures r <==> authUser.Some? && authUser.value.id == routeId
  {
    authUser.Some? && authUser.value.id == routeId
  }

  /**
   * The owner saving the page changes the signed-in user's record too: the
   * store's session follows the edit, as `updateUser` promises.
   */
  lemma OwnerSaveUpdatesSession(st: Db.Store, edited: User)
    requires IsOwner(st.authUser, edited.id)
    ensures Save(st, Some(edited)).authUser == Some(edited)
  {
  }

  /** A visitor's save (the page of someone else) leaves the session as it was. */
  lemma VisitorSaveKeepsSession(st: Db.Store, edited: User)
    requires !IsOwner(st.authUser, edited.id)
    ensures Save(st, Some(edited)).authUser == st.authUser
  {
  }

  /** The profile's posts: those of the store whose author is the route's user, newest first. */
  function UserPosts(all: seq<Post>, routeId: Id): (r: seq<Post>)
    ensures Seqs.Subseq(r, all)
    ensures forall p :: p in r <==> p in all && p.userId == routeId
    ensures forall p :: multiset(r)[p] == if p.userId == routeId then multiset(all)[p] else 0
  {
    Seqs.FilterSubseq(all, (p: Post) => p.userId == routeId);
    Seqs.Filter(all, (p: Post) => p.userId == routeId)
  }

  /** A member who never posted has an empty list. */
  lemma NoPostsNoList(all: seq<Post>, routeId: Id)
    requires forall p :: p in all ==> p.userId != routeId
    ensures UserPosts(all, routeId) == []
  {
    Seqs.FilterNone(all, (p: Post) => p.userId == routeId);
  }

  /** Read from the feed, the profile's posts are newest first too. */
  lemma UserPostsNewestFirst(st: Db.Store, routeId: Id)
    ensures Seqs.Descending(UserPosts(Db.GetPosts(st), routeId), Db.PostTime)
  {
    Seqs.FilterDescending(Db.GetPosts(st), (p: Post) => p.userId == routeId, Db.PostTime);
  }

  /** `displayedPosts`: the first two posts, or all of them once "show all" is on. */
  function DisplayedPosts(userPosts: seq<Post>, showAll: bool): (r: seq<Post>)
    ensures showAll ==> r == userPosts
    ensures !showAll ==> |r| == (if |userPosts| < 2 then |userPosts| else 2)
    ensures r <= userPosts
  {
    if showAll then userPosts else Seqs.Take(userPosts, 2)
  }

  /**
   * `handleSave`: the edit copy replaces the stored profile (and the
   * signed-in user, when it is the same member); every other record stays.
   * Without an edit copy nothing happens.
   */
  function Save(st: Db.Store, edited: Option<User>): (r: Db.Store)
    ensures edited.None? ==> r == st
    ensures edited.Some? ==> |r.users| == |st.users|
    ensures edited.Some? ==>
      forall i :: 0 <= i < |st.users| && st.users[i].id == edited.value.id ==> r.users[i] == edited.value
    ensures edited.Some? ==>
      forall i :: 0 <= i < |st.users| && st.users[i].id != edited.value.id ==> r.users[i] == st.users[i]
    ensures edited.Some? && st.authUser.Some? && st.authUser.value.id == edited.value.id ==> r.authUser == edited
    ensures !(edited.Some? && st.authUser.Some? && st.authUser.value.id == edited.value.id) ==> r.authUser == st.authUser
    ensures r == st.(users := r.users, authUser := r.authUser)
  {
    if edited.None? then st else Db.UpdateUser(st, edited.value)
  }

  /** Saving the same edit copy again changes nothing more. */
  lemma SaveIdempotent(st: Db.Store, edited: Option<User>)
    ensures Save(Save(st, edited), edited) == Save(st, edited)
  {
    var r1 := Save(st, edited);
    var r2 := Save(r1, edited);
    assert r2.users == r1.users;
  }

  // ---------------------------------------------------------------- string lists

  /** The two editable string lists. */
  datatype ListField = Skills | Accomplishments

  function List(u: User, f: ListField): seq<string> {
    match f
    case Skills => u.skills
    case Accomplishments => u.accomplishments
  }

  function WithList(u: User, f: ListField, l: seq<string>): (r: User)
    ensures List(r, f) == l
    ensures f == Skills ==> r == u.(skills := l)
    ensures f == Accomplishments ==> r == u.(accomplishments := l)
  {
    match f
    case Skills => u.(skills := l)
    case Accomplishments => u.(accomplishments := l)
  }

  /** The text a new entry starts with. */
  function Placeholder(f: ListField): string {
    match f
    case Skills => "New Skill"
    case Accomplishments => "New Accomplishment"
  }

  /** `addItem`: the placeholder is appended to the list; nothing else changes. */
  function AddItem(edited: Option<User>, f: ListField): (r: Option<User>)
    ensures edited.None? <==> r.None?
    ensures edited.Some? ==>
      && List(r.value, f) == List(edited.value, f) + [Placeholder(f)]
      && r.value == WithList(edited.value, f, List(r.value, f))
  {
    if edited.None? then None
    else
      var u := edited.value;
      Some(WithList(u, f, List(u, f) + [Placeholder(f)]))
  }

  /** `removeItem`: `splice(index, 1)` on a copy of the list; nothing else changes. */
  function RemoveItem(edited: Option<User>, f: ListField, index: int): (r: Option<User>)
    ensures edited.None? <==> r.None?
    ensures edited.Some? && 0 <= index < |List(edited.value, f)| ==>
      var l := List(edited.value, f);
      && List(r.value, f) == l[..index] + l[index + 1..]
      && |List(r.value, f)| == |l| - 1
    ensures edited.Some? && index >= |List(edited.value, f)| ==> r == edited
    ensures edited.Some? ==> r.value == WithList(edited.value, f, List(r.value, f))
  {
    if edited.None? then None
    else
      var u := edited.value;
      Some(WithList(u, f, Seqs.SpliceOne(List(u, f), index)))
  }

  /** Removing the entry `addItem` just appended gives back the edit copy as it was. */
  lemma RemoveAddedItem(edited: Option<User>, f: ListField)
    requires edited.Some?
    ensures RemoveItem(AddItem(edited, f), f, |List(edited.value, f)|) == edited
  {
    var u := edited.value;
    var l := List(u, f);
    var l2 := l + [Placeholder(f)];
    assert l2[..|l|] + l2[|l| + 1..] == l;
    assert Seqs.SpliceOne(l2, |l|) == l;
    match f {
      case Skills => assert u.(skills := l) == u;
      case Accomplishments => assert u.(accomplishments := l) == u;
    }
  }

  /**
   * `updateListItem`: the entry at `index` becomes `value`; the length and
   * every other entry stay. A negative index writes a property that is not
   * an array element, so the list is unchanged.
   */
  function UpdateListItem(edited: Option<User>, f: ListField, index: int, value: string): (r: Option<User>)
    requires edited.Some? ==> index < |List(edited.value, f)|
    ensures edited.None? <==> r.None?
    ensures edited.Some? ==>
      var l := List(edited.value, f);
      && |List(r.value, f)| == |l|
      && (forall j :: 0 <= j < |l| && j != index ==> List(r.value, f)[j] == l[j])
      && (0 <= index ==> List(r.value, f)[index] == value)
      && r.value == WithList(edited.value, f, List(r.value, f))
  {
    if edited.None? then None
    else
      var u := edited.value;
      var l := List(u, f);
      Some(WithList(u, f, if index < 0 then l else l[index := value]))
  }

  /** Writing an entry's own text back changes nothing. */
  lemma UpdateSameValue(edited: Option<User>, f: ListField, index: nat)
    requires edited.Some? && index < |List(edited.value, f)|
    ensures UpdateListItem(edited, f, index, List(edited.value, f)[index]) == edited
  {
    var u := edited.value;
    var l := List(u, f);
    assert l[index := l[index]] == l;
    match f {
      case Skills => assert u.(skills := l) == u;
      case Accomplishments => assert u.(accomplishments := l) == u;
    }
  }

  // ---------------------------------------------------------------- records

  function NewExperienceId(now: nat): Id { "e_" + Text.Decimal(now) }

  function NewProjectId(now: nat): Id { "p_" + Text.Decimal(now) }

  /** `addExperience`: a blank entry, with a clock-made id, goes in front of the others. */
  function AddExperience(edited: Option<User>, now: nat): (r: Option<User>)
    ensures edited.None? <==> r.None?
    ensures edited.Some? ==>
      && |r.value.experience| == |edited.value.experience| + 1
      && r.value.experience[0] == Experience(NewExperienceId(now), "", "", "", "")
      && r.value.experience[1..] == edited.value.experience
      && r.value == edited.value.(experience := r.value.experience)
  {
    if edited.None? then None
    else
      var u := edited.value;
      Some(u.(experience := [Experience(NewExperienceId(now), "", "", "", "")] + u.experience))
  }

  /** The trash button of an experience entry: every entry with that id goes; the others keep their order. */
  function RemoveExperience(edited: User, expId: Id): (r: User)
    ensures Seqs.Subseq(r.experience, edited.experience)
    ensures forall e :: e in r.experience <==> e in edited.experience && e.id != expId
    ensures forall e :: multiset(r.experience)[e] == if e.id != expId then multiset(edited.experience)[e] else 0
    ensures r == edited.(experience := r.experience)
  {
    Seqs.FilterSubseq(edited.experience, (e: Experience) => e.id != expId);
    edited.(experience := Seqs.Filter(edited.experience, (e: Experience) => e.id != expId))
  }

  /** A second "add" pushes the first new entry to second place, ahead of the older ones. */
  lemma AddExperienceTwice(edited: Option<User>, first: nat, second: nat)
    requires edited.Some?
    ensures var r := AddExperience(AddExperience(edited, first), second).value.experience;
      && |r| == |edited.value.experience| + 2
      && r[0].id == NewExperienceId(second) && r[1].id == NewExperienceId(first)
      && r[2..] == edited.value.experience
  {
    var r1 := AddExperience(edited, first).value.experience;
    var r := AddExperience(AddExperience(edited, first), second).value.experience;
    assert r[1..] == r1;
    assert r[2..] == r1[1..];
  }

  /** Trashing the entry just added, under an id no entry had, gives back the edit copy. */
  lemma RemoveAddedExperience(edited: Option<User>, now: nat)
    requires edited.Some?
    requires forall e :: e in edited.value.experience ==> e.id != NewExperienceId(now)
    ensures RemoveExperience(AddExperience(edited, now).value, NewExperienceId(now)) == edited.value
  {
    var u := edited.value;
    var es := AddExperience(edited, now).value.experience;
    var keep := (e: Experience) => e.id != NewExperienceId(now);
    assert es == [es[0]] + u.experience;
    Seqs.FilterAll(u.experience, keep);
    assert Seqs.Filter(es, keep) == Seqs.Filter(u.experience, keep);
  }

  /** `addProject`: a blank project without tags or link, with a clock-made id, goes in front. */
  function AddProject(edited: Option<User>, now: nat): (r: Option<User>)
    ensures edited.None? <==> r.None?
    ensures edited.Some? ==>
      && |r.value.projects| == |edited.value.projects| + 1
      && r.value.projects[0] == Project(NewProjectId(now), "", "", None, [])
      && r.value.projects[1..] == edited.value.projects
      && r.value == edited.value.(projects := r.value.projects)
  {
    if edited.None? then None
    else
      var u := edited.value;
      Some(u.(projects := [Project(NewProjectId(now), "", "", None, [])] + u.projects))
  }

  /** `removeProject`: every project with that id goes; the others keep their order. */
  function RemoveProject(edited: Option<User>, projId: Id): (r: Option<User>)
    ensures edited.None? <==> r.None?
    ensures edited.Some? ==>
      && Seqs.Subseq(r.value.projects, edited.value.projects)
      && (forall p :: p in r.value.projects <==> p in edited.value.projects && p.id != projId)
      && (forall p :: multiset(r.value.projects)[p] == if p.id != projId then multiset(edited.value.projects)[p] else 0)
      && r.value == edited.value.(projects := r.value.projects)
  {
    if edited.None? then None
    else
      var u := edited.value;
      Seqs.FilterSubseq(u.projects, (p: Project) => p.id != projId);
      Some(u.(projects := Seqs.Filter(u.projects, (p: Project) => p.id != projId)))
  }

  /** Removing a project that was just added, when no other project had its id, gives back the edit copy. */
  lemma RemoveAddedProject(edited: Option<User>, now: nat)
    requires edited.Some?
    requires forall p :: p in edited.value.projects ==> p.id != NewProjectId(now)
    ensures RemoveProject(AddProject(edited, now), NewProjectId(now)) == edited
  {
    var u := edited.value;
    var ps := [Project(NewProjectId(now), "", "", None, [])] + u.projects;
    var keep := (p: Project) => p.id != NewProjectId(now);
    assert ps[1..] == u.projects;
    Seqs.FilterAll(u.projects, keep);
    assert Seqs.Filter(ps, keep) == Seqs.Filter(u.projects, keep);
  }
}
