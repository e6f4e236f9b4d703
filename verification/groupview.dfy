/**
 * The page of one community group (`pages/GroupView.tsx`): loading the
 * group and its posts, whether the signed-in user is a member, who may read
 * the posts, the join/leave button and the post form, which writes through
 * the record store. The group list, the group posts and the join call come
 * from server methods the store does not define: their answers, or their
 * failure (`None`), are inputs here.
 */
module GroupView {
  import opened Wrappers
  import opened Types
  import Text
  import Seqs
  import Db

  /** The page's state: the loaded group, the membership flag, the spinner, the listed posts and the post form. */
  datatype Page = Page(group: Option<Group>, isMember: bool, loading: bool, posts: seq<Post>, content: string, image: string)

  /** The page as it opens: the spinner, no group or posts yet, not a member, an empty form. */
  function Open(): (p: Page)
    ensures p.group.None? && !p.isMember && p.loading && p.posts == [] && p.content == "" && p.image == ""
  {
    Page(None, false, true, [], "", "")
  }

  /**
   * Before any group arrives the page is inert: the membership effect keeps
   * the flag, and the empty form stores nothing.
   */
  lemma OpenPageIsInert(st: Db.Store, authUser: Option<User>, id: Option<Id>, refreshed: Option<seq<Post>>, now: nat)
    ensures SyncMembership(Open(), authUser) == Open()
    ensures PostSubmit(Open(), st, authUser, id, refreshed, now) == (Open(), st)
  {
  }

  // ---------------------------------------------------------------- loading

  /** `g` is the earliest group in the list with that id. */
  predicate FirstGroupWithId(groups: seq<Group>, id: Id, g: Group) {
    exists k :: 0 <= k < |groups| && groups[k] == g && forall j :: 0 <= j < k ==> groups[j].id != id
  }

  predicate HasGroup(groups: seq<Group>, id: Id) {
    exists g :: g in groups && g.id == id
  }

  /**
   * The route effect running `fetchGroupData`. Without a truthy route id the
   * effect does nothing. Otherwise the spinner is set and the group list is
   * awaited; when that call fails the promise rejects and the spinner stays.
   * The first group with the id is shown, and then its posts are awaited,
   * whose failure also leaves the spinner; with the posts listed, or when no
   * group has the id (the page as it was, which on first load shows "Group
   * Not Found"), the spinner stops.
   */
  function FetchGroupData(p: Page, id: Option<Id>, groups: Option<seq<Group>>, groupPosts: Option<seq<Post>>): (r: Page)
    ensures id.None? || !Text.Truthy(id.value) ==> r == p
    ensures id.Some? && Text.Truthy(id.value) ==>
      && r.isMember == p.isMember && r.content == p.content && r.image == p.image
      && (groups.None? ==> r == p.(loading := true))
      && (groups.Some? && !HasGroup(groups.value, id.value) ==> r == p.(loading := false))
      && (groups.Some? && HasGroup(groups.value, id.value) ==>
            && r.group.Some? && r.group.value.id == id.value
            && FirstGroupWithId(groups.value, id.value, r.group.value)
            && (groupPosts.None? ==> r.loading && r.posts == p.posts)
            && (groupPosts.Some? ==> !r.loading && r.posts == groupPosts.value))
  {
    if id.None? || !Text.Truthy(id.value) then p
    else
      var q := p.(loading := true);
      if groups.None? then q
      else
        var found := Seqs.Find(groups.value, (g: Group) => g.id == id.value);
        if found.None? then q.(loading := false)
        else if groupPosts.None? then q.(group := found)
        else q.(group := found, posts := groupPosts.value, loading := false)
  }

  /**
   * For a truthy route id the spinner stops exactly when the group list
   * arrived and either no group has the id or its posts arrived too: a failed
   * call on the way leaves the page spinning, as there is no `finally`.
   */
  lemma SpinnerStopsIffAnswered(p: Page, id: Id, groups: Option<seq<Group>>, groupPosts: Option<seq<Post>>)
    requires Text.Truthy(id)
    ensures !FetchGroupData(p, Some(id), groups, groupPosts).loading <==>
      groups.Some? && (groupPosts.Some? || !HasGroup(groups.value, id))
  {
  }

  /**
   * Once both calls are answered the page leaves its spinner: it shows the
   * group and its posts when a group has the route's id and "Group Not
   * Found" otherwise; the membership effect then reads the group's members.
   */
  lemma LoadedPageSettles(groups: seq<Group>, id: Id, groupPosts: seq<Post>, user: User)
    requires Text.Truthy(id)
    ensures var q := FetchGroupData(Open(), Some(id), Some(groups), Some(groupPosts));
      && !q.loading
      && (q.group.None? <==> forall g :: g in groups ==> g.id != id)
      && (q.group.Some? ==> q.posts == groupPosts)
      && (q.group.Some? ==> (SyncMembership(q, Some(user)).isMember <==> user.id in q.group.value.members))
  {
  }

  /**
   * The membership effect: with a group and a signed-in user the flag is
   * recomputed from the member list; otherwise it keeps its value.
   */
  function SyncMembership(p: Page, authUser: Option<User>): (r: Page)
    ensures p.group.Some? && authUser.Some? ==> r == p.(isMember := authUser.value.id in p.group.value.members)
    ensures !(p.group.Some? && authUser.Some?) ==> r == p
  {
    if p.group.Some? && authUser.Some? then p.(isMember := authUser.value.id in p.group.value.members) else p
  }

  /** Running the effect twice changes nothing more. */
  lemma SyncIdempotent(p: Page, authUser: Option<User>)
    ensures SyncMembership(SyncMembership(p, authUser), authUser) == SyncMembership(p, authUser)
  {
  }

  /** `canViewPosts`: a public group, or a private one the user belongs to. */
  predicate CanViewPosts(g: Group, isMember: bool) {
    g.privacy == Public || isMember
  }

  /** After the effect, a signed-in user sees a private group's posts exactly when listed as a member. */
  lemma PrivatePostsForMembersOnly(p: Page, user: User)
    requires p.group.Some? && p.group.value.privacy == Private
    ensures var q := SyncMembership(p, Some(user));
      CanViewPosts(q.group.value, q.isMember) <==> user.id in p.group.value.members
  {
  }

  /** Everybody sees a public group's posts, member or not. */
  lemma PublicPostsForAll(g: Group, isMember: bool)
    requires g.privacy == Public
    ensures CanViewPosts(g, isMember)
  {
  }

  /**
   * `handleJoinLeave`: without a group id nothing happens; when the server
   * answers with the updated group, that group is shown and the membership
   * flag is flipped; an empty answer changes nothing.
   */
  function JoinLeave(p: Page, id: Option<Id>, answer: Option<Group>): (r: Page)
    ensures id.None? || !Text.Truthy(id.value) || answer.None? ==> r == p
    ensures id.Some? && Text.Truthy(id.value) && answer.Some? ==>
      r.group == answer && r.isMember == !p.isMember && r.content == p.content && r.image == p.image
  {
    if id.None? || !Text.Truthy(id.value) then p
    else if answer.None? then p
    else p.(group := answer, isMember := !p.isMember)
  }

  /**
   * When the flag was in step with the old group and the server's group
   * reflects the join or leave, the flipped flag agrees with what the
   * membership effect recomputes from the new group.
   */
  lemma JoinLeaveAgreesWithServer(p: Page, id: Id, user: User, g: Group)
    requires Text.Truthy(id)
    requires p.group.Some? && p.isMember == (user.id in p.group.value.members)
    requires (user.id in g.members) == (user.id !in p.group.value.members)
    ensures var q := JoinLeave(p, Some(id), Some(g));
      SyncMembership(q, Some(user)) == q
  {
  }

  /** Once the effect runs after a join or leave, the flag always follows the server's member list. */
  lemma EffectSettlesJoinLeave(p: Page, id: Id, user: User, g: Group)
    requires Text.Truthy(id)
    ensures SyncMembership(JoinLeave(p, Some(id), Some(g)), Some(user)).isMember <==> user.id in g.members
  {
  }

  // ---------------------------------------------------------------- posting

  /** The post the form hands to `db.addPost`: the user's identity, the text, and the image as its only medium. */
  function DraftPost(u: User, p: Page): Post {
    var media := if Text.Truthy(p.image) then [Media(Image, p.image)] else [];
    Post("", u.id, u.name, u.avatar, u.role, p.content, 0, media, 0, [], [])
  }

  /**
   * `handlePostSubmit`: blank content stores nothing; without a user or a
   * group id nothing is stored either and the form keeps its text.
   * Otherwise the post is added to the store, in front of the stored posts,
   * under the user's name, with the image as its only medium when one was
   * given; the form is cleared, and the group's posts are listed afresh when
   * the reload answers (a failed reload keeps the old list).
   */
  function PostSubmit(p: Page, st: Db.Store, authUser: Option<User>, id: Option<Id>, refreshed: Option<seq<Post>>, now: nat): (r: (Page, Db.Store))
    ensures Text.IsBlank(p.content) ==> r == (p, st)
    ensures authUser.None? || id.None? || !Text.Truthy(id.value) ==> r == (p, st)
    ensures !Text.IsBlank(p.content) && authUser.Some? && id.Some? && Text.Truthy(id.value) ==>
      && r.0 == p.(content := "", image := "", posts := r.0.posts)
      && r.0.posts == (if refreshed.Some? then refreshed.value else p.posts)
      && |r.1.posts| == |st.posts| + 1
      && r.1.posts[1..] == Db.GetPosts(st)
      && r.1.posts[0].id == Db.NewPostId(now) && r.1.posts[0].timestamp == now
      && r.1.posts[0].userId == authUser.value.id && r.1.posts[0].userName == authUser.value.name
      && r.1.posts[0].userAvatar == authUser.value.avatar && r.1.posts[0].userRole == authUser.value.role
      && r.1.posts[0].content == p.content
      && r.1.posts[0].likes == 0 && r.1.posts[0].likedBy == [] && r.1.posts[0].comments == []
      && (r.1.posts[0].media != [] <==> Text.Truthy(p.image))
      && (Text.Truthy(p.image) ==> r.1.posts[0].media == [Media(Image, p.image)])
    ensures r.1 == st.(posts := r.1.posts)
  {
    if Text.Trim(p.content) == [] then (p, st)
    else if authUser.None? || id.None? || !Text.Truthy(id.value) then (p, st)
    else
      var listed := if refreshed.Some? then refreshed.value else p.posts;
      (p.(content := "", image := "", posts := listed), Db.AddPost(st, DraftPost(authUser.value, p), now))
  }

  /** A submitted form is empty, so submitting again at once stores nothing more. */
  lemma SubmitTwiceStoresOnce(p: Page, st: Db.Store, authUser: Option<User>, id: Option<Id>,
                              refreshed: Option<seq<Post>>, again: Option<seq<Post>>, now: nat, later: nat)
    ensures var (q, st') := PostSubmit(p, st, authUser, id, refreshed, now);
      PostSubmit(q, st', authUser, id, again, later) == (q, st')
  {
  }

  /**
   * The group's post lands in the shared post list, so the main feed lists it
   * too: the store keeps no group with a post.
   */
  lemma GroupPostReachesFeed(p: Page, st: Db.Store, user: User, id: Id, now: nat)
    requires !Text.IsBlank(p.content) && Text.Truthy(id)
    ensures var st' := PostSubmit(p, st, Some(user), Some(id), None, now).1;
      st'.posts[0] in Db.GetPosts(st')
  {
    var st' := PostSubmit(p, st, Some(user), Some(id), None, now).1;
    assert st'.posts[0] in multiset(st'.posts);
  }
}
