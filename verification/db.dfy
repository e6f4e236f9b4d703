/**
 * The browser-storage record store of `db.ts`. Each storage key holds a list
 * of records; every operation reads the lists, builds new ones and writes
 * them back, so each is modelled as a function from the old store to the new
 * one. `Date.now()` is the parameter `now`, and the generated ids are its
 * decimal rendering behind a fixed prefix.
 */
module Db {
  import opened Wrappers
  import opened Types
  import Text
  import Seqs

  /** The contents of the six storage keys (users, jobs, events, posts, notifications, signed-in user). */
  datatype Store = Store(
    users: seq<User>,
    jobs: seq<Job>,
    events: seq<Event>,
    posts: seq<Post>,
    notifications: seq<AppNotification>,
    authUser: Option<User>)

  function PostTime(p: Post): int { p.timestamp }

  function NoticeTime(n: AppNotification): int { n.timestamp }

  // ---------------------------------------------------------------- reads

  /** `getPosts`: the stored posts, newest first (the stable sort on `b.timestamp - a.timestamp`). */
  function GetPosts(st: Store): (r: seq<Post>)
    ensures Seqs.Descending(r, PostTime)
    ensures multiset(r) == multiset(st.posts)
  {
    Seqs.SortDesc(st.posts, PostTime)
  }

  /**
   * `getNotifications(userId?)`: with a truthy id, that user's notifications
   * newest first; with no id (or the empty one) the stored list as it is.
   */
  function GetNotifications(st: Store, userId: Option<Id>): (r: seq<AppNotification>)
    ensures !(userId.Some? && Text.Truthy(userId.value)) ==> r == st.notifications
    ensures userId.Some? && Text.Truthy(userId.value) ==>
      && Seqs.Descending(r, NoticeTime)
      && (forall n :: n in r <==> n in st.notifications && n.userId == userId.value)
      && (forall n :: multiset(r)[n] == if n.userId == userId.value then multiset(st.notifications)[n] else 0)
  {
    if userId.Some? && Text.Truthy(userId.value) then
      var mine := Seqs.Filter(st.notifications, (n: AppNotification) => n.userId == userId.value);
      var r := Seqs.SortDesc(mine, NoticeTime);
      assert forall n :: n in r <==> n in multiset(mine);
      r
    else st.notifications
  }

  // ---------------------------------------------------------------- posts

  function PostIndex(ps: seq<Post>, postId: Id): (k: nat)
    ensures k <= |ps|
    ensures k < |ps| ==> ps[k].id == postId
    ensures forall j :: 0 <= j < k ==> ps[j].id != postId
  {
    Seqs.FirstWhere(ps, (p: Post) => p.id == postId)
  }

  /** A post with that id is stored. */
  predicate HasPost(st: Store, postId: Id) {
    exists p :: p in st.posts && p.id == postId
  }

  /** The sorted list holds a post with the id exactly when the store does. */
  lemma PostIndexFound(st: Store, postId: Id)
    ensures PostIndex(GetPosts(st), postId) < |GetPosts(st)| <==> HasPost(st, postId)
  {
    var all := GetPosts(st);
    var k := PostIndex(all, postId);
    if k < |all| {
      assert all[k] in multiset(st.posts);
    }
    if HasPost(st, postId) {
      var p :| p in st.posts && p.id == postId;
      assert p in multiset(all);
      var i :| 0 <= i < |all| && all[i] == p;
    }
  }

  function NewPostId(now: nat): Id { "post_" + Text.Decimal(now) }

  /**
   * `addPost`: the new post goes in front of the (sorted) stored posts, with a
   * fresh id and time, no likes and no comments; every other field is the draft's.
   */
  function AddPost(st: Store, draft: Post, now: nat): (r: Store)
    ensures |r.posts| == |st.posts| + 1
    ensures r.posts[0].likes == 0 && r.posts[0].likedBy == [] && r.posts[0].comments == []
    ensures r.posts[0].timestamp == now && r.posts[0].id == NewPostId(now)
    ensures r.posts[0] == draft.(id := r.posts[0].id, timestamp := now, likes := 0, likedBy := [], comments := [])
    ensures r.posts[1..] == GetPosts(st)
    ensures r == st.(posts := r.posts)
  {
    var created := draft.(id := NewPostId(now), timestamp := now, likes := 0, likedBy := [], comments := []);
    st.(posts := [created] + GetPosts(st))
  }

  /**
   * The like toggle applied to one post: a user not yet in `likedBy` is
   * appended and the counter goes up; otherwise their first entry is removed
   * and the counter goes down. Nothing else in the post changes.
   */
  function ToggleLike(p: Post, userId: Id): (q: Post)
    ensures userId !in p.likedBy ==> q.likedBy == p.likedBy + [userId] && q.likes == p.likes + 1
    ensures userId in p.likedBy ==>
      && q.likes == p.likes - 1
      && |q.likedBy| == |p.likedBy| - 1
      && multiset(q.likedBy) == multiset(p.likedBy) - multiset{userId}
    ensures q.likes - |q.likedBy| == p.likes - |p.likedBy|
    ensures q == p.(likes := q.likes, likedBy := q.likedBy)
  {
    if userId !in p.likedBy then p.(likedBy := p.likedBy + [userId], likes := p.likes + 1)
    else p.(likedBy := Seqs.RemoveFirst(p.likedBy, userId), likes := p.likes - 1)
  }

  /** A toggle never lets a user appear twice in `likedBy`. */
  lemma ToggleLikeKeepsDistinct(p: Post, userId: Id)
    requires Seqs.Distinct(p.likedBy)
    ensures Seqs.Distinct(ToggleLike(p, userId).likedBy)
  {
    var q := ToggleLike(p, userId);
    if userId in p.likedBy {
      var k := Seqs.IndexOf(p.likedBy, userId);
      assert q.likedBy == p.likedBy[..k] + p.likedBy[k + 1..];
      forall i, j | 0 <= i < j < |q.likedBy|
        ensures q.likedBy[i] != q.likedBy[j]
      {
        var i' := if i < k then i else i + 1;
        var j' := if j < k then j else j + 1;
        assert q.likedBy[i] == p.likedBy[i'] && q.likedBy[j] == p.likedBy[j'];
      }
    }
  }

  /** Liking twice, starting from a post the user had not liked, restores the post exactly. */
  lemma ToggleLikeUndo(p: Post, userId: Id)
    requires userId !in p.likedBy
    ensures ToggleLike(ToggleLike(p, userId), userId) == p
  {
    Seqs.RemoveFirstAppended(p.likedBy, userId);
  }

  /**
   * Liking twice, starting from a post the user had liked, puts the counter
   * back and `likedBy` back to the same users (the user moves to the end),
   * provided nobody appears twice in `likedBy`.
   */
  lemma ToggleLikeTwice(p: Post, userId: Id)
    requires Seqs.Distinct(p.likedBy)
    ensures ToggleLike(ToggleLike(p, userId), userId).likes == p.likes
    ensures multiset(ToggleLike(ToggleLike(p, userId), userId).likedBy) == multiset(p.likedBy)
  {
    var q := ToggleLike(p, userId);
    if userId !in p.likedBy {
      ToggleLikeUndo(p, userId);
    } else {
      assert userId !in q.likedBy by {
        DistinctCountsOnce(p.likedBy, userId);
        assert multiset(q.likedBy)[userId] == 0;
      }
    }
  }

  lemma DistinctCountsOnce(s: seq<Id>, x: Id)
    requires Seqs.Distinct(s)
    ensures multiset(s)[x] <= 1
  {
    if s != [] {
      var t := s[1..];
      assert s == [s[0]] + t;
      assert Seqs.Distinct(t) by {
        forall i, j | 0 <= i < j < |t| ensures t[i] != t[j] {
          assert t[i] == s[i + 1] && t[j] == s[j + 1];
        }
      }
      DistinctCountsOnce(t, x);
      if s[0] == x {
        assert x !in t by {
          forall j | 0 <= j < |t| ensures t[j] != x {
            assert t[j] == s[j + 1];
          }
        }
      }
    }
  }

  /**
   * `likePost`: toggles the like on the first post with that id in the sorted
   * list and stores the sorted list. With no such post nothing is stored.
   */
  function LikePost(st: Store, postId: Id, userId: Id): (r: Store)
    ensures !HasPost(st, postId) ==> r == st
    ensures HasPost(st, postId) ==>
      var all := GetPosts(st);
      var k := PostIndex(all, postId);
      && k < |all|
      && |r.posts| == |all|
      && r.posts[k] == ToggleLike(all[k], userId)
      && (forall j :: 0 <= j < |all| && j != k ==> r.posts[j] == all[j])
    ensures r == st.(posts := r.posts)
  {
    var all := GetPosts(st);
    var k := PostIndex(all, postId);
    PostIndexFound(st, postId);
    if k == |all| then st
    else st.(posts := all[k := ToggleLike(all[k], userId)])
  }

  /** A post added under an id no stored post had is in the feed and is the only post with its id. */
  lemma AddPostFresh(st: Store, draft: Post, now: nat)
    requires forall p :: p in st.posts ==> p.id != NewPostId(now)
    ensures var r := AddPost(st, draft, now);
      && r.posts[0] in GetPosts(r)
      && forall q :: q in r.posts && q.id == r.posts[0].id ==> q == r.posts[0]
  {
    var r := AddPost(st, draft, now);
    var p0 := r.posts[0];
    assert r.posts == [p0] + GetPosts(st);
    assert p0 in multiset(GetPosts(r));
    forall q | q in r.posts && q.id == p0.id
      ensures q == p0
    {
      assert q == p0 || q in multiset(GetPosts(st));
    }
  }

  /** A post whose id no other stored post shares is the one a like on that id toggles. */
  lemma LikeUniquePost(st: Store, p: Post, userId: Id)
    requires p in st.posts
    requires forall q :: q in st.posts && q.id == p.id ==> q == p
    ensures ToggleLike(p, userId) in LikePost(st, p.id, userId).posts
  {
    var all := GetPosts(st);
    var k := PostIndex(all, p.id);
    PostIndexFound(st, p.id);
    assert all[k] in multiset(st.posts);
    var r := LikePost(st, p.id, userId);
    assert r.posts[k] in r.posts;
  }

  /** Replacing a post by one with the same timestamp keeps the feed newest first. */
  lemma UpdateKeepsDescending(all: seq<Post>, k: nat, p: Post)
    requires Seqs.Descending(all, PostTime) && k < |all| && p.timestamp == all[k].timestamp
    ensures Seqs.Descending(all[k := p], PostTime)
  {
    var u := all[k := p];
    forall i, j | 0 <= i < j < |u|
      ensures PostTime(u[i]) >= PostTime(u[j])
    {
      assert PostTime(u[i]) == PostTime(all[i]);
      assert PostTime(u[j]) == PostTime(all[j]);
    }
  }

  /** Replacing the found post by one with the same id keeps it the one found. */
  lemma UpdateKeepsIndex(all: seq<Post>, k: nat, p: Post, postId: Id)
    requires k < |all| && PostIndex(all, postId) == k && p.id == postId
    ensures PostIndex(all[k := p], postId) == k
  {
    var u := all[k := p];
    forall j | 0 <= j < k ensures u[j].id != postId {
      assert u[j] == all[j];
    }
    var k2 := PostIndex(u, postId);
    assert u[k].id == postId;
    assert k2 <= k;
    assert !(k2 < k);
  }

  /**
   * Liking a post twice with the same user (who had not liked it) leaves the
   * store's posts as `getPosts` would read them before the first like.
   */
  lemma LikePostTwice(st: Store, postId: Id, userId: Id)
    requires var all := GetPosts(st); var k := PostIndex(all, postId);
      k < |all| && userId !in all[k].likedBy
    ensures LikePost(LikePost(st, postId, userId), postId, userId).posts == GetPosts(st)
  {
    var all := GetPosts(st);
    var k := PostIndex(all, postId);
    LikeOnce(st, postId, userId, all, k);
    var st1 := LikePost(st, postId, userId);
    LikeOnce(st1, postId, userId, st1.posts, k);
    UpdateTwice(all, k, userId);
  }

  /** Toggling one post twice for a user who had not liked it gives back the list. */
  lemma UpdateTwice(all: seq<Post>, k: nat, userId: Id)
    requires k < |all| && userId !in all[k].likedBy
    ensures var once := all[k := ToggleLike(all[k], userId)];
      once[k := ToggleLike(once[k], userId)] == all
  {
    ToggleLikeUndo(all[k], userId);
    assert all[k := ToggleLike(all[k], userId)][k := all[k]] == all;
  }

  /**
   * One like on the post at place `k` of the feed: the store then holds the
   * feed with that post toggled, already in feed order, and the post keeps
   * its place.
   */
  lemma LikeOnce(st: Store, postId: Id, userId: Id, all: seq<Post>, k: nat)
    requires all == GetPosts(st) && k == PostIndex(all, postId) && k < |all|
    ensures var st1 := LikePost(st, postId, userId);
      && st1.posts == all[k := ToggleLike(all[k], userId)]
      && GetPosts(st1) == st1.posts
      && PostIndex(st1.posts, postId) == k
  {
    PostIndexFound(st, postId);
    var st1 := LikePost(st, postId, userId);
    var p1 := ToggleLike(all[k], userId);
    assert st1.posts == all[k := p1];
    UpdateKeepsDescending(all, k, p1);
    Seqs.SortDescSorted(st1.posts, PostTime);
    UpdateKeepsIndex(all, k, p1, postId);
  }

  function NewCommentId(now: nat): Id { "comment_" + Text.Decimal(now) }

  /**
   * `addComment`: appends one comment (fresh id and time) to the first post
   * with that id in the sorted list and stores that list; with no such post
   * nothing is stored.
   */
  function AddComment(st: Store, postId: Id, draft: Comment, now: nat): (r: Store)
    ensures !HasPost(st, postId) ==> r == st
    ensures HasPost(st, postId) ==>
      var all := GetPosts(st);
      var k := PostIndex(all, postId);
      && k < |all|
      && |r.posts| == |all|
      && r.posts[k] == all[k].(comments := r.posts[k].comments)
      && |r.posts[k].comments| == |all[k].comments| + 1
      && r.posts[k].comments[..|all[k].comments|] == all[k].comments
      && r.posts[k].comments[|all[k].comments|] == draft.(id := NewCommentId(now), timestamp := now)
      && (forall j :: 0 <= j < |all| && j != k ==> r.posts[j] == all[j])
    ensures r == st.(posts := r.posts)
  {
    var all := GetPosts(st);
    var k := PostIndex(all, postId);
    PostIndexFound(st, postId);
    if k == |all| then st
    else
      var c := draft.(id := NewCommentId(now), timestamp := now);
      st.(posts := all[k := all[k].(comments := all[k].comments + [c])])
  }

  // ---------------------------------------------------------------- notifications

  function NewNoticeId(now: nat): Id { "notif_" + Text.Decimal(now) }

  /** `addNotification`: one unread notification in front of the stored list. */
  function AddNotification(st: Store, draft: AppNotification, now: nat): (r: Store)
    ensures |r.notifications| == |st.notifications| + 1
    ensures r.notifications[0] == draft.(id := NewNoticeId(now), timestamp := now, isRead := false)
    ensures r.notifications[1..] == st.notifications
    ensures r == st.(notifications := r.notifications)
  {
    st.(notifications := [draft.(id := NewNoticeId(now), timestamp := now, isRead := false)] + st.notifications)
  }

  /** `markNotificationRead`: every notification with that id becomes read; nothing else changes. */
  function MarkNotificationRead(st: Store, id: Id): (r: Store)
    ensures |r.notifications| == |st.notifications|
    ensures forall i :: 0 <= i < |st.notifications| ==>
      && r.notifications[i].isRead == (st.notifications[i].isRead || st.notifications[i].id == id)
      && r.notifications[i] == st.notifications[i].(isRead := r.notifications[i].isRead)
    ensures r == st.(notifications := r.notifications)
  {
    var ns := st.notifications;
    st.(notifications := seq(|ns|, i requires 0 <= i < |ns| =>
      if ns[i].id == id then ns[i].(isRead := true) else ns[i]))
  }

  lemma MarkNotificationReadIdempotent(st: Store, id: Id)
    ensures MarkNotificationRead(MarkNotificationRead(st, id), id) == MarkNotificationRead(st, id)
  {
  }

  /** `clearAllNotifications`: drops exactly that user's notifications, keeping the others in order. */
  function ClearAllNotifications(st: Store, userId: Id): (r: Store)
    ensures Seqs.Subseq(r.notifications, st.notifications)
    ensures forall n :: n in r.notifications <==> n in st.notifications && n.userId != userId
    ensures forall n :: multiset(r.notifications)[n] == if n.userId != userId then multiset(st.notifications)[n] else 0
    ensures r == st.(notifications := r.notifications)
  {
    Seqs.FilterSubseq(st.notifications, (n: AppNotification) => n.userId != userId);
    st.(notifications := Seqs.Filter(st.notifications, (n: AppNotification) => n.userId != userId))
  }

  /**
   * After clearing, that user's notification list reads back empty. (For the
   * empty id the read returns the whole list instead, since "" is falsy.)
   */
  lemma ClearThenGetIsEmpty(st: Store, userId: Id)
    requires Text.Truthy(userId)
    ensures GetNotifications(ClearAllNotifications(st, userId), Some(userId)) == []
  {
    var st' := ClearAllNotifications(st, userId);
    var r := GetNotifications(st', Some(userId));
    assert forall n :: n !in r;
  }

  // ---------------------------------------------------------------- sign-in

  /** The sign-in test: email equal ignoring case, password equal exactly. */
  predicate LoginMatches(u: User, email: string, pass: string) {
    u.email.Some? && Text.Lower(u.email.value) == Text.Lower(email) && u.password == Some(pass)
  }

  /** `u` is stored at some place where no earlier user passes the sign-in test. */
  predicate FirstToMatch(users: seq<User>, email: string, pass: string, u: User) {
    exists k :: 0 <= k < |users| && users[k] == u && forall j :: 0 <= j < k ==> !LoginMatches(users[j], email, pass)
  }

  /** `users.find(...)` with the sign-in test: the first user who passes it. */
  function FirstLogin(users: seq<User>, email: string, pass: string): (r: Option<User>)
    ensures r.Some? <==> exists u :: u in users && LoginMatches(u, email, pass)
    ensures r.Some? ==> r.value in users && LoginMatches(r.value, email, pass)
    ensures r.Some? ==> FirstToMatch(users, email, pass, r.value)
  {
    if users == [] then None
    else if LoginMatches(users[0], email, pass) then
      assert FirstToMatch(users, email, pass, users[0]) by {
        assert users[0] == users[0];
      }
      Some(users[0])
    else
      var r := FirstLogin(users[1..], email, pass);
      FirstToMatchCons(users, email, pass, r);
      r
  }

  lemma FirstToMatchCons(users: seq<User>, email: string, pass: string, r: Option<User>)
    requires users != [] && !LoginMatches(users[0], email, pass)
    requires r.Some? ==> FirstToMatch(users[1..], email, pass, r.value)
    ensures r.Some? ==> FirstToMatch(users, email, pass, r.value)
  {
    if r.Some? {
      var k :| 0 <= k < |users[1..]| && users[1..][k] == r.value
        && forall j :: 0 <= j < k ==> !LoginMatches(users[1..][j], email, pass);
      assert users[k + 1] == r.value;
      forall j | 0 <= j < k + 1
        ensures !LoginMatches(users[j], email, pass)
      {
        if j > 0 {
          assert users[j] == users[1..][j - 1];
        }
      }
    }
  }

  /**
   * `login`: the first user passing the sign-in test becomes the signed-in
   * user and is returned; with none, nothing changes and nothing is returned.
   */
  function Login(st: Store, email: string, pass: string): (r: (Store, Option<User>))
    ensures r.1.Some? <==> exists u :: u in st.users && LoginMatches(u, email, pass)
    ensures r.1.Some? ==>
      && r.1.value in st.users
      && LoginMatches(r.1.value, email, pass)
      && FirstToMatch(st.users, email, pass, r.1.value)
      && r.0 == st.(authUser := r.1)
    ensures r.1.None? ==> r.0 == st
  {
    var found := FirstLogin(st.users, email, pass);
    if found.Some? then (st.(authUser := found), found) else (st, None)
  }

  /** Sign-in depends on the email only through its lower-case form. */
  lemma {:induction false} FirstLoginIgnoresCase(users: seq<User>, e1: string, e2: string, pass: string)
    requires Text.Lower(e1) == Text.Lower(e2)
    ensures FirstLogin(users, e1, pass) == FirstLogin(users, e2, pass)
    decreases |users|
  {
    if users != [] {
      FirstLoginIgnoresCase(users[1..], e1, e2, pass);
    }
  }

  lemma LoginIgnoresEmailCase(st: Store, e1: string, e2: string, pass: string)
    requires Text.Lower(e1) == Text.Lower(e2)
    ensures Login(st, e1, pass) == Login(st, e2, pass)
  {
    FirstLoginIgnoresCase(st.users, e1, e2, pass);
  }

  /** `logout`: the signed-in user is removed. */
  function Logout(st: Store): (r: Store)
    ensures r.authUser.None?
    ensures r == st.(authUser := None)
  {
    st.(authUser := None)
  }

  // ---------------------------------------------------------------- users

  function NewUserId(now: nat): Id { "user_" + Text.Decimal(now) }

  /** `addUser`: the new user, under a fresh id, goes at the end; the others stay as they were. */
  function AddUser(st: Store, draft: User, now: nat): (r: Store)
    ensures |r.users| == |st.users| + 1
    ensures r.users[..|st.users|] == st.users
    ensures r.users[|st.users|] == draft.(id := NewUserId(now))
    ensures r == st.(users := r.users)
  {
    st.(users := st.users + [draft.(id := NewUserId(now))])
  }

  /** `register`: `addUser`, then the new user is the signed-in user. */
  function Register(st: Store, draft: User, now: nat): (r: (Store, User))
    ensures r.1 == draft.(id := NewUserId(now))
    ensures r.0.users == st.users + [r.1]
    ensures r.0.authUser == Some(r.1)
    ensures r.0 == st.(users := r.0.users, authUser := Some(r.1))
  {
    var st' := AddUser(st, draft, now);
    var u := st'.users[|st.users|];
    assert st'.users == st.users + [u];
    (st'.(authUser := Some(u)), u)
  }

  /**
   * `updateUser`: every stored user with that id is replaced by the new
   * record, and so is the signed-in user when it has that id.
   */
  function UpdateUser(st: Store, u: User): (r: Store)
    ensures |r.users| == |st.users|
    ensures forall i :: 0 <= i < |st.users| ==>
      (st.users[i].id == u.id ==> r.users[i] == u) && (st.users[i].id != u.id ==> r.users[i] == st.users[i])
    ensures st.authUser.Some? && st.authUser.value.id == u.id ==> r.authUser == Some(u)
    ensures !(st.authUser.Some? && st.authUser.value.id == u.id) ==> r.authUser == st.authUser
    ensures r == st.(users := r.users, authUser := r.authUser)
  {
    var us := st.users;
    var users' := seq(|us|, i requires 0 <= i < |us| => if us[i].id == u.id then u else us[i]);
    var auth' := if st.authUser.Some? && st.authUser.value.id == u.id then Some(u) else st.authUser;
    st.(users := users', authUser := auth')
  }

  /** `deleteUser`: drops every user with that id, keeping the others in order. */
  function DeleteUser(st: Store, id: Id): (r: Store)
    ensures Seqs.Subseq(r.users, st.users)
    ensures forall u :: u in r.users <==> u in st.users && u.id != id
    ensures forall u :: multiset(r.users)[u] == if u.id != id then multiset(st.users)[u] else 0
    ensures r == st.(users := r.users)
  {
    Seqs.FilterSubseq(st.users, (u: User) => u.id != id);
    st.(users := Seqs.Filter(st.users, (u: User) => u.id != id))
  }

  // ---------------------------------------------------------------- jobs and events

  function NewJobId(now: nat): Id { "job_" + Text.Decimal(now) }

  /** `addJob`: the new job, under a fresh id, in front of the stored jobs. */
  function AddJob(st: Store, draft: Job, now: nat): (r: Store)
    ensures |r.jobs| == |st.jobs| + 1
    ensures r.jobs[0] == draft.(id := NewJobId(now))
    ensures r.jobs[1..] == st.jobs
    ensures r == st.(jobs := r.jobs)
  {
    st.(jobs := [draft.(id := NewJobId(now))] + st.jobs)
  }

  /** `deleteJob`: drops every job with that id, keeping the others in order. */
  function DeleteJob(st: Store, id: Id): (r: Store)
    ensures Seqs.Subseq(r.jobs, st.jobs)
    ensures forall j :: j in r.jobs <==> j in st.jobs && j.id != id
    ensures forall j :: multiset(r.jobs)[j] == if j.id != id then multiset(st.jobs)[j] else 0
    ensures r == st.(jobs := r.jobs)
  {
    Seqs.FilterSubseq(st.jobs, (j: Job) => j.id != id);
    st.(jobs := Seqs.Filter(st.jobs, (j: Job) => j.id != id))
  }

  /** Deleting a job just added under an id no stored job has gives back the stored jobs. */
  lemma DeleteAddedJob(st: Store, draft: Job, now: nat)
    requires forall j :: j in st.jobs ==> j.id != NewJobId(now)
    ensures DeleteJob(AddJob(st, draft, now), NewJobId(now)).jobs == st.jobs
  {
    var added := AddJob(st, draft, now).jobs;
    assert added == [added[0]] + st.jobs;
    Seqs.FilterAll(st.jobs, (j: Job) => j.id != NewJobId(now));
  }

  function NewEventId(now: nat): Id { "event_" + Text.Decimal(now) }

  /** `addEvent`: the new event, under a fresh id, in front of the stored events. */
  function AddEvent(st: Store, draft: Event, now: nat): (r: Store)
    ensures |r.events| == |st.events| + 1
    ensures r.events[0] == draft.(id := NewEventId(now))
    ensures r.events[1..] == st.events
    ensures r == st.(events := r.events)
  {
    st.(events := [draft.(id := NewEventId(now))] + st.events)
  }
}
