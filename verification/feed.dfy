/**
 * The social feed page (`pages/Feed.tsx`): which posts are listed, the
 * formatting buttons of the editor, and the guards in front of posting,
 * liking and commenting. The editor's text area is a value with its
 * selection; the 1.2-second posting delay is not modelled, so a post is
 * stored when it is submitted.
 */
module Feed {
  import opened Wrappers
  import opened Types
  import Text
  import Seqs
  import Db

  datatype FeedFilter = All | Connections

  /** The fixed demo list of connections the connections tab shows. */
  const DemoConnections: seq<Id> := ["1", "mentor_1", "user_4", "user_5"]

  predicate FromConnection(p: Post, me: Id) {
    p.userId in DemoConnections || p.userId == me
  }

  /**
   * `loadPosts`: the stored posts newest first; on the connections tab with a
   * user, only the posts of the demo connections and of the user, in that order.
   */
  function LoadPosts(st: Db.Store, filter: FeedFilter, user: Option<User>): (r: seq<Post>)
    ensures filter == All || user.None? ==> r == Db.GetPosts(st)
    ensures Seqs.Subseq(r, Db.GetPosts(st))
    ensures filter == Connections && user.Some? ==>
      && (forall p :: p in r <==> p in st.posts && FromConnection(p, user.value.id))
      && (forall p :: multiset(r)[p] == if FromConnection(p, user.value.id) then multiset(st.posts)[p] else 0)
  {
    var all := Db.GetPosts(st);
    assert forall p :: p in all <==> p in st.posts by {
      assert multiset(all) == multiset(st.posts);
      forall p ensures p in all <==> p in st.posts {
        assert p in all <==> multiset(all)[p] > 0;
      }
    }
    if filter == Connections && user.Some? then
      var me := user.value.id;
      Seqs.FilterSubseq(all, p => FromConnection(p, me));
      Seqs.Filter(all, p => FromConnection(p, me))
    else
      Seqs.SubseqRefl(all);
      all
  }

  /** Signed out, `u.id !== user?.id` holds for every user (no id equals `undefined`). */
  predicate NotMe(u: User, me: Option<Id>) {
    me.None? || u.id != me.value
  }

  /** The suggestions panel: the first four users other than the signed-in one. */
  function Favorites(users: seq<User>, me: Option<Id>): (r: seq<User>)
    ensures |r| <= 4
    ensures Seqs.Subseq(r, users)
    ensures me.Some? ==> forall u :: u in r ==> u.id != me.value
    ensures Seqs.FirstCapOf(r, users, (u: User) => NotMe(u, me), 4)
  {
    var others := Seqs.Filter(users, (u: User) => NotMe(u, me));
    Seqs.FilterSubseq(users, (u: User) => NotMe(u, me));
    Seqs.TakeSubseq(others, 4);
    Seqs.SubseqTrans(Seqs.Take(others, 4), others, users);
    assert forall u :: u in Seqs.Take(others, 4) ==> u in others;
    Seqs.Take(others, 4)
  }

  /** Signed out, the panel shows the first four stored users. */
  lemma FavoritesSignedOut(users: seq<User>)
    ensures Favorites(users, None) == Seqs.Take(users, 4)
  {
    Seqs.FilterAll(users, (u: User) => NotMe(u, None));
  }

  // ---------------------------------------------------------------- editor

  /** The editor's text area: its value and its selection. */
  datatype TextArea = TextArea(value: string, selStart: int, selEnd: int)

  /**
   * `insertText`: wraps the selection in `before` and `after` (taking the
   * pieces with `substring`) and moves the selection past `before`. Without
   * a mounted text area nothing happens.
   */
  function InsertText(area: Option<TextArea>, before: string, after: string): (r: Option<TextArea>)
    ensures area.None? ==> r.None?
    ensures area.Some? ==>
      r.Some? && r.value.selStart == area.value.selStart + |before| && r.value.selEnd == area.value.selEnd + |before|
    ensures area.Some? && 0 <= area.value.selStart <= area.value.selEnd <= |area.value.value| ==>
      var t := area.value.value;
      var (a, b) := (area.value.selStart, area.value.selEnd);
      && r.value.value == t[..a] + before + t[a..b] + after + t[b..]
      && |r.value.value| == |t| + |before| + |after|
      && r.value.value[r.value.selStart..r.value.selEnd] == t[a..b]
  {
    if area.None? then None
    else
      var TextArea(text, start, end) := area.value;
      var selected := Text.Substring(text, start, end);
      var beforeText := Text.Substring(text, 0, start);
      var afterText := Text.Substring(text, end, |text|);
      var newText := beforeText + before + selected + after + afterText;
      if 0 <= start <= end <= |text| then
        assert newText[start + |before|..end + |before|] == selected;
        Some(TextArea(newText, start + |before|, end + |before|))
      else
        Some(TextArea(newText, start + |before|, end + |before|))
  }

  /** Formatting with an empty selection puts the two markers side by side at the caret. */
  lemma InsertAtCaret(t: string, k: int, before: string, after: string)
    requires 0 <= k <= |t|
    ensures InsertText(Some(TextArea(t, k, k)), before, after)
      == Some(TextArea(t[..k] + before + after + t[k..], k + |before|, k + |before|))
  {
    assert t[k..k] == [];
    assert t[..k] + before + [] + after + t[k..] == t[..k] + before + after + t[k..];
  }

  // ---------------------------------------------------------------- actions

  /** The post composer's fields. */
  datatype Composer = Composer(content: string, mediaUrl: string, mediaKind: MediaType)

  /** The post `handlePostSubmit` hands to the store: the user's identity, the text, and the media if a URL was given. */
  function DraftPost(u: User, c: Composer): Post {
    Post("", u.id, u.name, u.avatar, u.role, c.content, 0,
         if Text.Truthy(c.mediaUrl) then [Media(c.mediaKind, c.mediaUrl)] else [], 0, [], [])
  }

  /**
   * `handlePostSubmit`: without a user or with blank content nothing is
   * stored; otherwise the post is stored at the front of the feed under the
   * user's name.
   */
  function SubmitPost(st: Db.Store, user: Option<User>, c: Composer, now: nat): (r: Db.Store)
    ensures user.None? || Text.IsBlank(c.content) ==> r == st
    ensures user.Some? && !Text.IsBlank(c.content) ==>
      && |r.posts| == |st.posts| + 1
      && r.posts[0].id == Db.NewPostId(now) && r.posts[0].timestamp == now
      && r.posts[0].userId == user.value.id && r.posts[0].userName == user.value.name
      && r.posts[0].userAvatar == user.value.avatar && r.posts[0].userRole == user.value.role
      && r.posts[0].content == c.content
      && r.posts[0].likes == 0 && r.posts[0].likedBy == [] && r.posts[0].comments == []
      && (Text.Truthy(c.mediaUrl) ==> r.posts[0].media == [Media(c.mediaKind, c.mediaUrl)])
      && (!Text.Truthy(c.mediaUrl) ==> r.posts[0].media == [])
      && r.posts[1..] == Db.GetPosts(st)
    ensures r == st.(posts := r.posts)
  {
    if user.None? || Text.Trim(c.content) == [] then st
    else Db.AddPost(st, DraftPost(user.value, c), now)
  }

  /** `handleLike`: without a user nothing happens; otherwise the user's like on the post is toggled. */
  function HandleLike(st: Db.Store, user: Option<User>, postId: Id): (r: Db.Store)
    ensures user.None? ==> r == st
    ensures user.Some? ==> r == Db.LikePost(st, postId, user.value.id)
  {
    if user.None? then st else Db.LikePost(st, postId, user.value.id)
  }

  /**
   * A submitted post, under an id no stored post had, is listed in the "all"
   * feed, and its author's heart on it gives it exactly one like, theirs.
   */
  lemma SubmittedPostIsLikeable(st: Db.Store, u: User, c: Composer, now: nat)
    requires !Text.IsBlank(c.content)
    requires forall p :: p in st.posts ==> p.id != Db.NewPostId(now)
    ensures var r := SubmitPost(st, Some(u), c, now);
      && r.posts[0] in LoadPosts(r, All, Some(u))
      && exists q :: q in HandleLike(r, Some(u), Db.NewPostId(now)).posts
           && q.id == Db.NewPostId(now) && q.likes == 1 && q.likedBy == [u.id]
  {
    var r := SubmitPost(st, Some(u), c, now);
    assert r == Db.AddPost(st, DraftPost(u, c), now);
    var p0 := r.posts[0];
    Db.AddPostFresh(st, DraftPost(u, c), now);
    Db.LikeUniquePost(r, p0, u.id);
    var q := Db.ToggleLike(p0, u.id);
    assert q.id == Db.NewPostId(now) && q.likes == 1 && q.likedBy == [u.id];
  }

  /** Two clicks on the heart by the same user give back the feed as it was before. */
  lemma HandleLikeTwice(st: Db.Store, user: Option<User>, postId: Id)
    requires user.Some?
    requires var all := Db.GetPosts(st); var k := Db.PostIndex(all, postId);
      k < |all| && user.value.id !in all[k].likedBy
    ensures HandleLike(HandleLike(st, user, postId), user, postId).posts == Db.GetPosts(st)
  {
    Db.LikePostTwice(st, postId, user.value.id);
  }

  /** The comment `handleCommentSubmit` hands to the store: the user's identity and the text. */
  function DraftComment(u: User, content: string): Comment {
    Comment("", u.id, u.name, u.avatar, content, 0)
  }

  /**
   * The comment store's side of a comment: when the post is stored, the
   * feed is stored with that post's comment list grown by one, ending in a
   * comment with that content under the author's id, name and avatar; the
   * earlier comments, the post's other fields and every other post are as
   * the feed read them. When the post is not stored, the store is unchanged.
   */
  predicate CommentAppended(st: Db.Store, r: Db.Store, postId: Id, content: string, author: User) {
    if Db.HasPost(st, postId) then
      var all := Db.GetPosts(st);
      var k := Db.PostIndex(all, postId);
      && k < |all| && |r.posts| == |all|
      && r.posts[k] == all[k].(comments := r.posts[k].comments)
      && (forall j :: 0 <= j < |all| && j != k ==> r.posts[j] == all[j])
      && r == st.(posts := r.posts)
      && var n := |all[k].comments|;
      && |r.posts[k].comments| == n + 1
      && r.posts[k].comments[..n] == all[k].comments
      && r.posts[k].comments[n].content == content
      && r.posts[k].comments[n].userId == author.id
      && r.posts[k].comments[n].userName == author.name
      && r.posts[k].comments[n].userAvatar == author.avatar
    else r == st
  }

  /**
   * `handleCommentSubmit`: without a user, or with no or a blank draft for
   * the post, nothing happens. Otherwise the draft is stored as a comment on
   * the post and that post's draft, and only that one, is emptied.
   */
  function SubmitComment(st: Db.Store, drafts: map<Id, string>, user: Option<User>, postId: Id, now: nat)
    : (r: (Db.Store, map<Id, string>))
    ensures user.None? || postId !in drafts || Text.IsBlank(drafts[postId]) ==> r == (st, drafts)
    ensures user.Some? && postId in drafts && !Text.IsBlank(drafts[postId]) ==>
      && r.1.Keys == drafts.Keys
      && r.1[postId] == ""
      && (forall k :: k in drafts && k != postId ==> r.1[k] == drafts[k])
      && CommentAppended(st, r.0, postId, drafts[postId], user.value)
  {
    if user.None? || postId !in drafts || Text.Trim(drafts[postId]) == [] then (st, drafts)
    else
      CommentStored(st, postId, user.value, drafts[postId], now);
      DraftCleared(drafts, postId);
      (Db.AddComment(st, postId, DraftComment(user.value, drafts[postId]), now), drafts[postId := ""])
  }

  lemma DraftCleared(drafts: map<Id, string>, postId: Id)
    requires postId in drafts
    ensures var d := drafts[postId := ""];
      d.Keys == drafts.Keys && d[postId] == "" && forall k :: k in drafts && k != postId ==> d[k] == drafts[k]
  {
  }

  lemma CommentStored(st: Db.Store, postId: Id, u: User, content: string, now: nat)
    ensures CommentAppended(st, Db.AddComment(st, postId, DraftComment(u, content), now), postId, content, u)
  {
  }
}
