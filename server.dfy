/**
 * The request handlers of the Express server that change or read the
 * per-user tables (posts, likes, friends, comments) and the admin handlers
 * that drive the theme service. Every handler runs after the bearer-token
 * middleware, so the caller's user id is a parameter; the admin handlers
 * also run after the isAdmin gate.
 */
module Server {
  import opened Common
  import JsString
  import TS = ThemeService

  /** The ids in ADMIN_USER_IDS. */
  const AdminUserIds: seq<nat> := [1, 2]

  /** isAdmin: the caller passes exactly when their id is listed in ADMIN_USER_IDS. */
  function IsAdmin(userId: int): (admitted: bool)
    ensures admitted <==> userId == 1 || userId == 2
  {
    userId in AdminUserIds
  }

  /** An HTTP reply: the status code and the `error` or `message` text. */
  datatype Reply = Reply(status: nat, message: string)

  /** The song fields of a post, as the request body gives them. */
  datatype Song = Song(songName: string, artistName: string, spotifyTrackId: string,
                       albumImageUrl: string, spotifyUrl: string, note: string)

  /** A row of `daily_posts`; `postDate` is the day of its `post_date` timestamp. */
  datatype Post = Post(id: nat, userId: nat, song: Song, postDate: Date, themeId: Option<nat>, hidden: Option<bool>)

  datatype FriendStatus = Pending | Accepted

  /** A row of `friends`: `userId` sent the request to `friendId`. */
  datatype FriendRow = FriendRow(id: nat, userId: nat, friendId: nat, status: FriendStatus)

  /** A row of `comments`. */
  datatype Comment = Comment(id: nat, userId: nat, postId: nat, text: string)

  /** A row of `user_notification_settings`: which kinds of notification the user receives. */
  datatype NotificationSettings = NotificationSettings(dailyTheme: bool, likes: bool, comments: bool, friendRequests: bool)

  /** The answer of /feed/check-lock-status. */
  datatype LockStatus = LockStatus(locked: bool, theme: Option<TS.Theme>)

  /** The answer of /feed: the lock descriptor in place of the posts, or today's posts. */
  datatype FeedReply = Locked(message: string, theme: Option<TS.Theme>) | FeedPosts(posts: seq<Post>)

  const LockedMessage := "Post your daily song to see what your friends are sharing today!"

  // ----- the cached theme id a post is stamped with -----

  /**
   * /daily-post's reading of the `current_theme_id` setting: the parsed
   * integer when the row exists, its value is non-empty and parses to a
   * positive number; None (SQL NULL) otherwise.
   */
  function PostThemeId(setting: Option<string>): Option<nat> {
    if setting.Some? && setting.value != "" then
      match JsString.ParseInt(setting.value)
      case Some(n) => if n > 0 then Some(n as nat) else None
      case None => None
    else None
  }

  /** The id of a resolved theme, None when no theme is resolved. */
  function IdOf(theme: Option<TS.Theme>): Option<nat> {
    if theme.Some? then Some(theme.value.id) else None
  }

  /**
   * The two theme paths agree: when the setting row exists and has been
   * refreshed since the last calendar change, the theme id a new post is
   * stamped with is the id of the theme the live query resolves.
   */
  lemma CachedIdMatchesLive(setting: Option<string>, themes: seq<TS.Theme>, schedule: seq<TS.Assignment>, today: Date)
    requires forall k :: 0 <= k < |themes| ==> themes[k].id > 0
    requires setting.Some? && setting == TS.Refreshed(setting, themes, schedule, today)
    ensures PostThemeId(setting) == IdOf(TS.ScheduledTheme(themes, schedule, today))
  {
    var r := TS.ScheduledTheme(themes, schedule, today);
    TS.CacheValueNamesResolvedTheme(r);
    if r.Some? {
      var k :| 0 <= k < |themes| && themes[k] == r.value;
    }
  }

  /**
   * A setting holding the decimal form of `n` stamps `n` when it is positive
   * and nothing when it is 0; an absent or empty setting stamps nothing.
   */
  lemma PostThemeIdOfDecimal(n: nat)
    ensures PostThemeId(Some(JsString.NatToString(n))) == if n > 0 then Some(n) else None
    ensures PostThemeId(None) == None && PostThemeId(Some("")) == None
  {
    JsString.ParseIntOfNatToString(n);
  }

  // ----- queries over posts -----

  /** The position of the first post by `user` dated `date`. */
  function PostOn(posts: seq<Post>, user: nat, date: Date): (r: Option<nat>)
    ensures r.Some? ==> r.value < |posts| && posts[r.value].userId == user && posts[r.value].postDate == date
    ensures r.None? ==> forall k :: 0 <= k < |posts| ==> !(posts[k].userId == user && posts[k].postDate == date)
  {
    if posts == [] then None
    else if posts[0].userId == user && posts[0].postDate == date then Some(0)
    else
      match PostOn(posts[1..], user, date)
      case Some(k) => Some(k + 1)
      case None => None
  }

  /** The feed-lock predicate: `user` has a post dated `today`. */
  predicate HasPostedToday(posts: seq<Post>, user: nat, today: Date) {
    PostOn(posts, user, today).Some?
  }

  /** The position of the post with id `postId` owned by `user`. */
  function OwnPost(posts: seq<Post>, postId: int, user: nat): (r: Option<nat>)
    ensures r.Some? ==> r.value < |posts| && posts[r.value].id == postId && posts[r.value].userId == user
    ensures r.None? ==> forall k :: 0 <= k < |posts| ==> !(posts[k].id == postId && posts[k].userId == user)
  {
    if posts == [] then None
    else if posts[0].id == postId && posts[0].userId == user then Some(0)
    else
      match OwnPost(posts[1..], postId, user)
      case Some(k) => Some(k + 1)
      case None => None
  }

  /** The post with id `postId`. */
  function PostById(posts: seq<Post>, postId: int): (r: Option<Post>)
    ensures r.Some? ==> r.value in posts && r.value.id == postId
    ensures r.None? ==> forall p :: p in posts ==> p.id != postId
  {
    if posts == [] then None
    else if posts[0].id == postId then Some(posts[0])
    else PostById(posts[1..], postId)
  }

  /** `posts` without the rows whose id is `postId`, in the same order. */
  function RemovePost(posts: seq<Post>, postId: int): (r: seq<Post>)
    ensures forall p :: p in r <==> p in posts && p.id != postId
  {
    if posts == [] then []
    else
      assert forall x :: x in posts <==> x == posts[0] || x in posts[1..];
      (if posts[0].id == postId then [] else [posts[0]]) + RemovePost(posts[1..], postId)
  }

  /** At most one post per user per day. */
  ghost predicate OnePostPerDay(posts: seq<Post>) {
    forall i, j :: 0 <= i < j < |posts| ==> posts[i].userId != posts[j].userId || posts[i].postDate != posts[j].postDate
  }

  /** Post ids are distinct serial numbers below `nextId`. */
  ghost predicate PostIdsFresh(posts: seq<Post>, nextId: nat) {
    && (forall i, j :: 0 <= i < j < |posts| ==> posts[i].id != posts[j].id)
    && (forall k :: 0 <= k < |posts| ==> posts[k].id < nextId)
  }

  /** A post that clashes with no later row keeps both invariants when put in front. */
  lemma PrependKeepsInvariants(head: Post, rest: seq<Post>, nextId: nat)
    requires OnePostPerDay(rest) && PostIdsFresh(rest, nextId) && head.id < nextId
    requires forall q :: q in rest ==> q.id != head.id && (q.userId != head.userId || q.postDate != head.postDate)
    ensures OnePostPerDay([head] + rest) && PostIdsFresh([head] + rest, nextId)
  {
    var r := [head] + rest;
    forall i, j | 0 <= i < j < |r|
      ensures r[i].userId != r[j].userId || r[i].postDate != r[j].postDate
      ensures r[i].id != r[j].id
    {
      assert r[j] == rest[j - 1];
      if i > 0 { assert r[i] == rest[i - 1]; }
    }
    forall k | 0 <= k < |r| ensures r[k].id < nextId {
      if k > 0 { assert r[k] == rest[k - 1]; }
    }
  }

  /** Removing rows keeps one post per user per day and keeps ids distinct. */
  lemma {:induction false} RemovePostKeepsInvariants(posts: seq<Post>, postId: int, nextId: nat)
    requires OnePostPerDay(posts) && PostIdsFresh(posts, nextId)
    ensures OnePostPerDay(RemovePost(posts, postId)) && PostIdsFresh(RemovePost(posts, postId), nextId)
  {
    if posts != [] {
      var head, tail := posts[0], posts[1..];
      assert OnePostPerDay(tail) && PostIdsFresh(tail, nextId) by {
        forall i, j | 0 <= i < j < |tail|
          ensures tail[i].userId != tail[j].userId || tail[i].postDate != tail[j].postDate
          ensures tail[i].id != tail[j].id
        {
          assert tail[i] == posts[i + 1] && tail[j] == posts[j + 1];
        }
      }
      RemovePostKeepsInvariants(tail, postId, nextId);
      var rest := RemovePost(tail, postId);
      if head.id != postId {
        forall q | q in rest
          ensures q.id != head.id && (q.userId != head.userId || q.postDate != head.postDate)
        {
          var m :| 0 <= m < |tail| && tail[m] == q;
          assert posts[m + 1] == q;
        }
        PrependKeepsInvariants(head, rest, nextId);
        assert RemovePost(posts, postId) == [head] + rest;
      } else {
        assert RemovePost(posts, postId) == [] + rest;
      }
    }
  }

  /** The ids of the users who are accepted friends of `user`, in either direction. */
  function FriendIds(friends: seq<FriendRow>, user: nat): (ids: set<nat>)
    ensures forall id :: id in ids <==> exists f :: f in friends && f.status == Accepted
                                                  && ((f.userId == user && f.friendId == id) || (f.friendId == user && f.userId == id))
  {
    (set f | f in friends && f.status == Accepted && f.userId == user :: f.friendId)
    + (set f | f in friends && f.status == Accepted && f.friendId == user :: f.userId)
  }

  /** Today's posts by `user` and by their accepted friends, in table order. */
  function TodaysPosts(posts: seq<Post>, allowed: set<nat>, user: nat, today: Date): (r: seq<Post>)
    ensures forall p :: p in r <==> p in posts && p.postDate == today && (p.userId == user || p.userId in allowed)
  {
    if posts == [] then []
    else
      assert forall x :: x in posts <==> x == posts[0] || x in posts[1..];
      (if posts[0].postDate == today && (posts[0].userId == user || posts[0].userId in allowed) then [posts[0]] else [])
      + TodaysPosts(posts[1..], allowed, user, today)
  }

  /**
   * GET /user/:userId/posts: the target's posts; someone else's profile
   * shows only those not hidden (hidden false or NULL).
   */
  function VisiblePosts(posts: seq<Post>, target: nat, viewer: nat): (r: seq<Post>)
    ensures forall p :: p in r <==> p in posts && p.userId == target && (target == viewer || p.hidden != Some(true))
  {
    if posts == [] then []
    else
      assert forall x :: x in posts <==> x == posts[0] || x in posts[1..];
      (if posts[0].userId == target && (target == viewer || posts[0].hidden != Some(true)) then [posts[0]] else [])
      + VisiblePosts(posts[1..], target, viewer)
  }

  // ----- friends and comments -----

  /** Whether a `friends` row links `a` and `b` in either direction, whatever its status. */
  predicate Linked(friends: seq<FriendRow>, a: nat, b: nat) {
    exists k :: 0 <= k < |friends| && ((friends[k].userId == a && friends[k].friendId == b)
                                       || (friends[k].userId == b && friends[k].friendId == a))
  }

  /**
   * The UPDATE of /accept-friend-request: every row linking `a` and `b`, in
   * either direction, becomes accepted; every other row is kept as it is.
   */
  function AcceptBetween(friends: seq<FriendRow>, a: int, b: int): (r: seq<FriendRow>)
    ensures |r| == |friends|
    ensures forall k :: 0 <= k < |r| ==> r[k].id == friends[k].id && r[k].userId == friends[k].userId && r[k].friendId == friends[k].friendId
    ensures forall k :: 0 <= k < |r| ==>
              r[k].status == if (friends[k].userId == a && friends[k].friendId == b) || (friends[k].userId == b && friends[k].friendId == a)
                             then Accepted else friends[k].status
  {
    seq(|friends|, k requires 0 <= k < |friends| =>
      if (friends[k].userId == a && friends[k].friendId == b) || (friends[k].userId == b && friends[k].friendId == a)
      then friends[k].(status := Accepted) else friends[k])
  }

  /**
   * Accepting makes friends exactly the linked pair: afterwards `friendId` is
   * among the caller's friends iff some row linked the two or they were
   * already friends, and every other user's standing with the caller is unchanged.
   */
  lemma AcceptMakesFriends(friends: seq<FriendRow>, user: nat, friendId: nat)
    ensures friendId in FriendIds(AcceptBetween(friends, friendId, user), user) <==> Linked(friends, user, friendId)
    ensures forall other :: other != friendId ==>
              (other in FriendIds(AcceptBetween(friends, friendId, user), user) <==> other in FriendIds(friends, user))
  {
    var r := AcceptBetween(friends, friendId, user);
    if Linked(friends, user, friendId) {
      var k :| 0 <= k < |friends| && ((friends[k].userId == user && friends[k].friendId == friendId)
                                      || (friends[k].userId == friendId && friends[k].friendId == user));
      assert r[k] in r;
    }
    if friendId in FriendIds(r, user) {
      var f :| f in r && f.status == Accepted && ((f.userId == user && f.friendId == friendId) || (f.friendId == user && f.userId == friendId));
      var k :| 0 <= k < |r| && r[k] == f;
    }
    forall other | other != friendId
      ensures other in FriendIds(r, user) <==> other in FriendIds(friends, user)
    {
      AcceptKeepsOthers(friends, user, friendId, other);
    }
  }

  /** Accepting the request from `friendId` leaves the caller's standing with any other user as it was. */
  lemma AcceptKeepsOthers(friends: seq<FriendRow>, user: nat, friendId: nat, other: nat)
    requires other != friendId
    ensures other in FriendIds(AcceptBetween(friends, friendId, user), user) <==> other in FriendIds(friends, user)
  {
    var r := AcceptBetween(friends, friendId, user);
    if other in FriendIds(r, user) {
      var f :| f in r && f.status == Accepted && ((f.userId == user && f.friendId == other) || (f.friendId == user && f.userId == other));
      var k :| 0 <= k < |r| && r[k] == f;
      assert friends[k] in friends;
    }
    if other in FriendIds(friends, user) {
      var f :| f in friends && f.status == Accepted && ((f.userId == user && f.friendId == other) || (f.friendId == user && f.userId == other));
      var k :| 0 <= k < |friends| && friends[k] == f;
      assert r[k] in r;
    }
  }

  /** `friends` without the rows with id `rowId` whose target is `user`, in the same order. */
  function RemoveRequest(friends: seq<FriendRow>, rowId: int, user: nat): (r: seq<FriendRow>)
    ensures forall f :: f in r <==> f in friends && !(f.id == rowId && f.friendId == user)
  {
    if friends == [] then []
    else
      assert forall x :: x in friends <==> x == friends[0] || x in friends[1..];
      (if friends[0].id == rowId && friends[0].friendId == user then [] else [friends[0]])
      + RemoveRequest(friends[1..], rowId, user)
  }

  /** The comment with id `commentId`. */
  function CommentById(comments: seq<Comment>, commentId: int): (r: Option<Comment>)
    ensures r.Some? ==> r.value in comments && r.value.id == commentId
    ensures r.None? ==> forall c :: c in comments ==> c.id != commentId
  {
    if comments == [] then None
    else if comments[0].id == commentId then Some(comments[0])
    else CommentById(comments[1..], commentId)
  }

  /** `comments.id` is a serial primary key: no two rows share an id. */
  predicate CommentIdsDistinct(comments: seq<Comment>) {
    forall i, j :: 0 <= i < j < |comments| ==> comments[i].id != comments[j].id
  }

  /**
   * With distinct ids, the row `CommentById` picks is the only one the
   * `WHERE c.id = $1` lookup can match.
   */
  lemma {:induction false} CommentByIdUnique(comments: seq<Comment>, c: Comment)
    requires CommentIdsDistinct(comments)
    requires c in comments
    ensures CommentById(comments, c.id) == Some(c)
  {
    if comments[0] != c {
      assert c in comments[1..];
      var k :| 0 <= k < |comments[1..]| && comments[1..][k] == c;
      assert comments[0].id != comments[k + 1].id;
      assert CommentIdsDistinct(comments[1..]) by {
        forall i, j | 0 <= i < j < |comments[1..]| ensures comments[1..][i].id != comments[1..][j].id {
          assert comments[1..][i] == comments[i + 1] && comments[1..][j] == comments[j + 1];
        }
      }
      CommentByIdUnique(comments[1..], c);
    }
  }

  /** `comments` without the rows with id `commentId`, in the same order. */

  function RemoveComment(comments: seq<Comment>, commentId: int): (r: seq<Comment>)
    ensures forall c :: c in r <==> c in comments && c.id != commentId
    ensures CommentIdsDistinct(comments) ==> CommentIdsDistinct(r)
  {
    if comments == [] then []
    else
      assert forall x :: x in comments <==> x == comments[0] || x in comments[1..];
      (if comments[0].id == commentId then [] else [comments[0]]) + RemoveComment(comments[1..], commentId)
  }

  /**
   * The rule of /delete-comment: 404 when the comment, joined with its post,
   * is not found; 403 unless the caller wrote the comment or owns the post;
   * 200 otherwise.
   */
  function DeleteCommentStatus(comments: seq<Comment>, posts: seq<Post>, user: nat, commentId: int): (status: nat)
    ensures status == 200 <==> exists c, p :: c in comments && c.id == commentId && p in posts && p.id == c.postId
                                                && (user == c.userId || user == p.userId)
                                                && CommentById(comments, commentId) == Some(c) && PostById(posts, c.postId) == Some(p)
    ensures status in {200, 403, 404}
    ensures status == 404 <==> CommentById(comments, commentId).None?
                               || PostById(posts, CommentById(comments, commentId).value.postId).None?
    ensures status == 403 <==> && CommentById(comments, commentId).Some?
                               && PostById(posts, CommentById(comments, commentId).value.postId).Some?
                               && user != CommentById(comments, commentId).value.userId
                               && user != PostById(posts, CommentById(comments, commentId).value.postId).value.userId
  {
    var c := CommentById(comments, commentId);
    if c.None? then 404
    else
      var p := PostById(posts, c.value.postId);
      if p.None? then 404
      else if user != c.value.userId && user != p.value.userId then 403
      else 200
  }

  // ----- the tables -----

  /**
   * The server's per-user tables. `users` maps each custom username to its
   * user id (the column is unique); the handlers modelled here only read it.
   */
  class Tables {
    var users: map<string, nat>
    var posts: seq<Post>
    var likes: set<(nat, nat)>
    var friends: seq<FriendRow>
    var comments: seq<Comment>
    var nextPostId: nat
    var nextFriendRowId: nat
    var nextCommentId: nat
    var notificationSettings: map<nat, NotificationSettings>

    ghost predicate Valid()
      reads this
    {
      && OnePostPerDay(posts)
      && PostIdsFresh(posts, nextPostId)
      && (forall k :: 0 <= k < |friends| ==> friends[k].id < nextFriendRowId)
      && (forall k :: 0 <= k < |comments| ==> comments[k].id < nextCommentId)
      && CommentIdsDistinct(comments)
    }

    /** Empty post, like and friend tables over the given registered users and existing comments. */
    constructor (users: map<string, nat>, comments: seq<Comment>, nextCommentId: nat)
      requires forall k :: 0 <= k < |comments| ==> comments[k].id < nextCommentId
      requires CommentIdsDistinct(comments)
      ensures Valid()
      ensures this.users == users && posts == [] && likes == {} && friends == [] && this.comments == comments
      ensures notificationSettings == map[]
    {
      this.users := users;
      posts, likes, friends, this.comments := [], {}, [], comments;
      notificationSettings := map[];
      nextPostId, nextFriendRowId, this.nextCommentId := 1, 1, nextCommentId;
    }

    /**
     * /feed/check-lock-status: locked exactly when the caller has no post
     * dated today; today's live theme is reported whatever the lock state.
     */
    function CheckLockStatus(svc: TS.Service, user: nat, today: Date): (r: LockStatus)
      reads this, svc
      ensures r.locked <==> forall p :: p in posts ==> !(p.userId == user && p.postDate == today)
      ensures r.theme == TS.ScheduledTheme(svc.themes, svc.schedule, today)
    {
      LockStatus(!HasPostedToday(posts, user, today), TS.ScheduledTheme(svc.themes, svc.schedule, today))
    }

    /**
     * /feed: while the caller has no post dated today the lock descriptor,
     * carrying today's live theme, replaces the posts; otherwise the posts
     * dated today by the caller and their accepted friends.
     */
    function Feed(svc: TS.Service, user: nat, today: Date): (r: FeedReply)
      reads this, svc
      ensures r.Locked? <==> CheckLockStatus(svc, user, today).locked
      ensures r.Locked? ==> r == Locked(LockedMessage, CheckLockStatus(svc, user, today).theme)
      ensures r.FeedPosts? ==> forall p :: p in r.posts <==> (p in posts && p.postDate == today
                                                            && (p.userId == user || p.userId in FriendIds(friends, user)))
    {
      if !HasPostedToday(posts, user, today) then
        Locked(LockedMessage, TS.ScheduledTheme(svc.themes, svc.schedule, today))
      else
        FeedPosts(TodaysPosts(posts, FriendIds(friends, user), user, today))
    }

    /**
     * /daily-post: the caller's post dated today is overwritten in place (all
     * song fields, the theme id, the date) or, if there is none, one post is
     * added; either way it is stamped with the cached theme id. One post per
     * user per day is kept and the caller is no longer locked.
     */
    method DailyPost(svc: TS.Service, user: nat, song: Song, today: Date) returns (reply: Reply)
      requires Valid()
      modifies this`posts, this`nextPostId
      ensures Valid()
      ensures reply.status == 200
      ensures var themeId := PostThemeId(svc.currentThemeSetting);
              match PostOn(old(posts), user, today)
              case Some(k) => posts == old(posts)[k := old(posts)[k].(song := song, themeId := themeId, postDate := today)]
                              && reply.message == "Today's song updated successfully!"
              case None => posts == old(posts) + [Post(old(nextPostId), user, song, today, themeId, None)]
                           && reply.message == "Song posted successfully!"
      ensures nextPostId == old(nextPostId) + (if PostOn(old(posts), user, today).None? then 1 else 0)
      ensures HasPostedToday(posts, user, today)
      ensures !CheckLockStatus(svc, user, today).locked
    {
      var themeId := PostThemeId(svc.currentThemeSetting);
      var existing := PostOn(posts, user, today);
      if existing.Some? {
        var k := existing.value;
        posts := posts[k := posts[k].(song := song, themeId := themeId, postDate := today)];
        reply := Reply(200, "Today's song updated successfully!");
        assert posts[k].userId == user && posts[k].postDate == today;
      } else {
        posts := posts + [Post(nextPostId, user, song, today, themeId, None)];
        nextPostId := nextPostId + 1;
        reply := Reply(200, "Song posted successfully!");
        assert posts[|posts| - 1].userId == user && posts[|posts| - 1].postDate == today;
      }
    }

    /**
     * /toggle-like: flip whether (user, post) is in `likes`; `liked` is the
     * membership afterwards. A new like notifies the post's owner unless the
     * owner is the caller (`notify` names the user a notification goes to).
     */
    method ToggleLike(user: nat, postId: nat) returns (liked: bool, notify: Option<nat>)
      requires Valid()
      modifies this`likes
      ensures Valid()
      ensures liked <==> (user, postId) !in old(likes)
      ensures liked <==> (user, postId) in likes
      ensures likes == if liked then old(likes) + {(user, postId)} else old(likes) - {(user, postId)}
      ensures notify.Some? <==> liked && PostById(posts, postId).Some? && PostById(posts, postId).value.userId != user
      ensures notify.Some? ==> notify.value == PostById(posts, postId).value.userId
    {
      if (user, postId) in likes {
        likes := likes - {(user, postId)};
        return false, None;
      }
      likes := likes + {(user, postId)};
      liked := true;
      var post := PostById(posts, postId);
      if post.Some? && post.value.userId != user {
        notify := Some(post.value.userId);
      } else {
        notify := None;
      }
    }

    /**
     * /send-friend-request: 404 for an unknown username, 400 when a row
     * already links the two users in either direction, otherwise one pending
     * row from the caller to that user is added.
     */
    method SendFriendRequest(user: nat, friendUsername: string) returns (reply: Reply)
      requires Valid()
      modifies this`friends, this`nextFriendRowId
      ensures Valid()
      ensures friendUsername !in users ==>
                reply == Reply(404, "User not found") && friends == old(friends) && nextFriendRowId == old(nextFriendRowId)
      ensures friendUsername in users && Linked(old(friends), user, users[friendUsername]) ==>
                && reply == Reply(400, "Friend request already exists or you are already friends")
                && friends == old(friends) && nextFriendRowId == old(nextFriendRowId)
      ensures friendUsername in users && !Linked(old(friends), user, users[friendUsername]) ==>
                && reply == Reply(200, "Friend request sent!")
                && friends == old(friends) + [FriendRow(old(nextFriendRowId), user, users[friendUsername], Pending)]
                && nextFriendRowId == old(nextFriendRowId) + 1
      ensures reply.status == 200 ==> Linked(friends, user, users[friendUsername])
    {
      if friendUsername !in users {
        return Reply(404, "User not found");
      }
      var friendId := users[friendUsername];
      if Linked(friends, user, friendId) {
        return Reply(400, "Friend request already exists or you are already friends");
      }
      friends := friends + [FriendRow(nextFriendRowId, user, friendId, Pending)];
      nextFriendRowId := nextFriendRowId + 1;
      reply := Reply(200, "Friend request sent!");
      assert friends[|friends| - 1].userId == user;
    }

    /**
     * /accept-friend-request: every row linking the caller and `friendId`, in
     * either direction, becomes accepted; no other row changes.
     */
    method AcceptFriendRequest(user: nat, friendId: int) returns (reply: Reply)
      requires Valid()
      modifies this`friends
      ensures Valid()
      ensures reply == Reply(200, "Friend request accepted!")
      ensures friends == AcceptBetween(old(friends), friendId, user)
    {
      friends := AcceptBetween(friends, friendId, user);
      reply := Reply(200, "Friend request accepted!");
    }

    /** /reject-friend-request: delete the row `rowId` only if the caller is its target. */
    method RejectFriendRequest(user: nat, rowId: int) returns (reply: Reply)
      requires Valid()
      modifies this`friends
      ensures Valid()
      ensures reply == Reply(200, "Friend request rejected!")
      ensures friends == RemoveRequest(old(friends), rowId, user)
    {
      friends := RemoveRequest(friends, rowId, user);
      reply := Reply(200, "Friend request rejected!");
      forall k | 0 <= k < |friends| ensures friends[k].id < nextFriendRowId {
        assert friends[k] in old(friends);
      }
    }

    /**
     * /delete-comment: 404 for an unknown comment, 403 unless the caller wrote
     * it or owns its post; otherwise exactly that comment is removed.
     */
    method DeleteComment(user: nat, commentId: int) returns (reply: Reply)
      requires Valid()
      modifies this`comments
      ensures Valid()
      ensures reply.status == DeleteCommentStatus(old(comments), posts, user, commentId)
      ensures reply.status == 404 ==> reply == Reply(404, "Comment not found") && comments == old(comments)
      ensures reply.status == 403 ==> reply == Reply(403, "Not authorized to delete this comment") && comments == old(comments)
      ensures reply.status == 200 ==> reply == Reply(200, "Comment deleted successfully")
                                      && comments == RemoveComment(old(comments), commentId)
    {
      var status := DeleteCommentStatus(comments, posts, user, commentId);
      if status == 404 {
        return Reply(404, "Comment not found");
      } else if status == 403 {
        return Reply(403, "Not authorized to delete this comment");
      }
      comments := RemoveComment(comments, commentId);
      reply := Reply(200, "Comment deleted successfully");
      forall k | 0 <= k < |comments| ensures comments[k].id < nextCommentId {
        assert comments[k] in old(comments);
      }
    }

    /**
     * DELETE /daily-post/:postId: 404 unless the caller owns the post;
     * otherwise it is removed and `feedLocked` says whether it was dated
     * today, in which case the caller is locked again.
     */
    method DeletePost(user: nat, postId: int, today: Date) returns (reply: Reply, feedLocked: bool)
      requires Valid()
      modifies this`posts
      ensures Valid()
      ensures OwnPost(old(posts), postId, user).None? ==>
                reply.status == 404 && posts == old(posts) && !feedLocked
      ensures OwnPost(old(posts), postId, user).Some? ==>
                && reply == Reply(200, "Post deleted successfully")
                && posts == RemovePost(old(posts), postId)
                && feedLocked == (old(posts)[OwnPost(old(posts), postId, user).value].postDate == today)
      ensures feedLocked ==> !HasPostedToday(posts, user, today)
    {
      var own := OwnPost(posts, postId, user);
      if own.None? {
        return Reply(404, "Post not found or you do not have permission to delete it"), false;
      }
      var k := own.value;
      feedLocked := posts[k].postDate == today;
      RemovePostKeepsInvariants(posts, postId, nextPostId);
      ghost var before := posts;
      posts := RemovePost(posts, postId);
      reply := Reply(200, "Post deleted successfully");
      if feedLocked {
        forall j | 0 <= j < |posts| ensures !(posts[j].userId == user && posts[j].postDate == today) {
          var m :| 0 <= m < |before| && before[m] == posts[j];
          assert m != k;
        }
      }
    }

    /**
     * PUT /daily-post/:postId/toggle-visibility: 403 unless the caller owns
     * the post; otherwise its `hidden` flag (NULL read as false) is negated.
     */
    method ToggleVisibility(user: nat, postId: int) returns (reply: Reply, hidden: bool)
      requires Valid()
      modifies this`posts
      ensures Valid()
      ensures OwnPost(old(posts), postId, user).None? ==>
                reply == Reply(403, "Post not found or you do not have permission") && posts == old(posts)
      ensures OwnPost(old(posts), postId, user).Some? ==>
                var k := OwnPost(old(posts), postId, user).value;
                && hidden == (old(posts)[k].hidden != Some(true))
                && posts == old(posts)[k := old(posts)[k].(hidden := Some(hidden))]
                && reply == Reply(200, if hidden then "Post hidden" else "Post visible")
    {
      var own := OwnPost(posts, postId, user);
      if own.None? {
        return Reply(403, "Post not found or you do not have permission"), false;
      }
      var k := own.value;
      hidden := posts[k].hidden != Some(true);
      posts := posts[k := posts[k].(hidden := Some(hidden))];
      reply := Reply(200, if hidden then "Post hidden" else "Post visible");
    }

    /**
     * PUT /notification-settings: 400 when no flag is given; otherwise the
     * caller's row is inserted (from the column defaults) or updated, with
     * exactly the given flags replaced.
     */
    method UpdateNotificationSettings(user: nat, dailyTheme: Option<bool>, likes: Option<bool>,
                                      comments: Option<bool>, friendRequests: Option<bool>,
                                      defaults: NotificationSettings)
      returns (reply: Reply)
      requires Valid()
      modifies this`notificationSettings
      ensures Valid()
      ensures dailyTheme.None? && likes.None? && comments.None? && friendRequests.None? ==>
                reply == Reply(400, "No settings provided to update") && notificationSettings == old(notificationSettings)
      ensures dailyTheme.Some? || likes.Some? || comments.Some? || friendRequests.Some? ==>
                var base := if user in old(notificationSettings) then old(notificationSettings)[user] else defaults;
                && reply.status == 200
                && notificationSettings.Keys == old(notificationSettings).Keys + {user}
                && (forall u :: u in old(notificationSettings) && u != user ==> notificationSettings[u] == old(notificationSettings)[u])
                && notificationSettings[user] == NotificationSettings(
                     if dailyTheme.Some? then dailyTheme.value else base.dailyTheme,
                     if likes.Some? then likes.value else base.likes,
                     if comments.Some? then comments.value else base.comments,
                     if friendRequests.Some? then friendRequests.value else base.friendRequests)
    {
      var fields, params := NotificationSetClauses(user, dailyTheme, likes, comments, friendRequests);
      if |fields| == 0 {
        return Reply(400, "No settings provided to update");
      }
      var base := if user in notificationSettings then notificationSettings[user] else defaults;
      var row := NotificationSettings(
        if dailyTheme.Some? then dailyTheme.value else base.dailyTheme,
        if likes.Some? then likes.value else base.likes,
        if comments.Some? then comments.value else base.comments,
        if friendRequests.Some? then friendRequests.value else base.friendRequests);
      notificationSettings := notificationSettings[user := row];
      reply := Reply(200, "");
    }
  }

  // ----- admin handlers over the theme service -----

  /**
   * A column an UPDATE built from the request body can set: one of `themes`
   * (PUT /admin/themes/:id) or of `user_notification_settings`
   * (PUT /notification-settings).
   */
  datatype Column =
    | TitleColumn | DescriptionColumn | ActiveColumn
    | DailyThemeColumn | LikesColumn | CommentsColumn | FriendRequestsColumn

  /** A bound query parameter. */
  datatype Param = IdParam(id: int) | TextParam(text: Option<string>) | FlagParam(flag: bool)

  /**
   * The SET list of PUT /admin/themes/:id, built as the handler does: one
   * `column = $n` per field given, numbered from $2 upwards, with the theme
   * id as $1. Placeholder $n of each clause binds the value given for its column.
   */
  method SetClauses(themeId: int, title: Option<string>, description: Option<Option<string>>, active: Option<bool>)
    returns (fields: seq<(Column, nat)>, params: seq<Param>)
    ensures |params| == |fields| + 1 && params[0] == IdParam(themeId)
    ensures |fields| == (if title.Some? then 1 else 0) + (if description.Some? then 1 else 0) + (if active.Some? then 1 else 0)
    ensures forall k :: 0 <= k < |fields| ==> fields[k].1 == k + 2
    ensures forall k :: 0 <= k < |fields| && fields[k].0 == TitleColumn ==>
              title.Some? && params[fields[k].1 - 1] == TextParam(title)
    ensures forall k :: 0 <= k < |fields| && fields[k].0 == DescriptionColumn ==>
              description.Some? && params[fields[k].1 - 1] == TextParam(description.value)
    ensures forall k :: 0 <= k < |fields| && fields[k].0 == ActiveColumn ==>
              active.Some? && params[fields[k].1 - 1] == FlagParam(active.value)
    ensures title.Some? ==> exists k :: 0 <= k < |fields| && fields[k].0 == TitleColumn
    ensures description.Some? ==> exists k :: 0 <= k < |fields| && fields[k].0 == DescriptionColumn
    ensures active.Some? ==> exists k :: 0 <= k < |fields| && fields[k].0 == ActiveColumn
  {
    fields := [];
    params := [IdParam(themeId)];
    var paramIndex := 2;
    if title.Some? {
      fields := fields + [(TitleColumn, paramIndex)];
      assert fields[0].0 == TitleColumn;
      paramIndex := paramIndex + 1;
      params := params + [TextParam(title)];
    }
    if description.Some? {
      fields := fields + [(DescriptionColumn, paramIndex)];
      assert fields[|fields| - 1].0 == DescriptionColumn;
      paramIndex := paramIndex + 1;
      params := params + [TextParam(description.value)];
    }
    if active.Some? {
      fields := fields + [(ActiveColumn, paramIndex)];
      assert fields[|fields| - 1].0 == ActiveColumn;
      paramIndex := paramIndex + 1;
      params := params + [FlagParam(active.value)];
    }
    assert title.Some? ==> fields[0].0 == TitleColumn;
    assert description.Some? ==> fields[if title.Some? then 1 else 0].0 == DescriptionColumn;
  }

  /** Placeholder `p` binds the flag given for notification column `col`. */
  predicate FlagBound(col: Column, p: Param, dailyTheme: Option<bool>, likes: Option<bool>,
                      comments: Option<bool>, friendRequests: Option<bool>) {
    match col
    case DailyThemeColumn => dailyTheme.Some? && p == FlagParam(dailyTheme.value)
    case LikesColumn => likes.Some? && p == FlagParam(likes.value)
    case CommentsColumn => comments.Some? && p == FlagParam(comments.value)
    case FriendRequestsColumn => friendRequests.Some? && p == FlagParam(friendRequests.value)
    case _ => false
  }

  /** The `(column, flag)` pair of a flag, when it is given. */
  function Given(col: Column, flag: Option<bool>): seq<(Column, bool)> {
    if flag.Some? then [(col, flag.value)] else []
  }

  /** The SET clauses PUT /notification-settings should build: the given flags, in the handler's order. */
  function NotificationClauses(dailyTheme: Option<bool>, likes: Option<bool>, comments: Option<bool>,
                               friendRequests: Option<bool>): seq<(Column, bool)> {
    Given(DailyThemeColumn, dailyTheme) + Given(LikesColumn, likes) + Given(CommentsColumn, comments)
    + Given(FriendRequestsColumn, friendRequests)
  }

  /**
   * There is one clause per flag given and no other. Each clause's column
   * belongs to a given flag and binds that flag's value, and no column
   * appears twice.
   */
  lemma NotificationClausesSpec(dailyTheme: Option<bool>, likes: Option<bool>, comments: Option<bool>,
                                friendRequests: Option<bool>)
    ensures var g := NotificationClauses(dailyTheme, likes, comments, friendRequests);
            && |g| == (if dailyTheme.Some? then 1 else 0) + (if likes.Some? then 1 else 0)
                      + (if comments.Some? then 1 else 0) + (if friendRequests.Some? then 1 else 0)
            && (forall k :: 0 <= k < |g| ==> FlagBound(g[k].0, FlagParam(g[k].1), dailyTheme, likes, comments, friendRequests))
            && (dailyTheme.Some? ==> exists k :: 0 <= k < |g| && g[k].0 == DailyThemeColumn)
            && (likes.Some? ==> exists k :: 0 <= k < |g| && g[k].0 == LikesColumn)
            && (comments.Some? ==> exists k :: 0 <= k < |g| && g[k].0 == CommentsColumn)
            && (friendRequests.Some? ==> exists k :: 0 <= k < |g| && g[k].0 == FriendRequestsColumn)
            && (forall i, j :: 0 <= i < j < |g| ==> g[i].0 != g[j].0)
  {
    var a, b, c, d := Given(DailyThemeColumn, dailyTheme), Given(LikesColumn, likes),
                      Given(CommentsColumn, comments), Given(FriendRequestsColumn, friendRequests);
    var g := a + b + c + d;
    assert forall k :: 0 <= k < |g| ==>
      g[k] == if k < |a| then a[0] else if k < |a| + |b| then b[0] else if k < |a| + |b| + |c| then c[0] else d[0];
    assert dailyTheme.Some? ==> g[0].0 == DailyThemeColumn;
    assert likes.Some? ==> g[|a|].0 == LikesColumn;
    assert comments.Some? ==> g[|a| + |b|].0 == CommentsColumn;
    assert friendRequests.Some? ==> g[|a| + |b| + |c|].0 == FriendRequestsColumn;
  }

  /** `fields` and `params` are the numbered SET list and parameters of clauses `g`, with `userId` as $1. */
  predicate Built(fields: seq<(Column, nat)>, params: seq<Param>, userId: nat, g: seq<(Column, bool)>) {
    && |fields| == |g| && |params| == |g| + 1 && params[0] == IdParam(userId)
    && forall k :: 0 <= k < |g| ==> fields[k] == (g[k].0, k + 2) && params[k + 1] == FlagParam(g[k].1)
  }

  /** Appending the clause of one more flag extends the list it was built from. */
  lemma BuiltAppend(fields: seq<(Column, nat)>, params: seq<Param>, userId: nat, g: seq<(Column, bool)>,
                    col: Column, flag: Option<bool>)
    requires Built(fields, params, userId, g)
    ensures Built(fields + (if flag.Some? then [(col, |fields| + 2)] else []),
                  params + (if flag.Some? then [FlagParam(flag.value)] else []), userId, g + Given(col, flag))
  {
    if flag.None? {
      assert fields + [] == fields && params + [] == params && g + [] == g;
    }
  }

  /**
   * The SET list of PUT /notification-settings, built the same way: one
   * `column = $n` per flag given, numbered from $2 upwards, with the user id
   * as $1.
   */
  method NotificationSetClauses(userId: nat, dailyTheme: Option<bool>, likes: Option<bool>,
                                comments: Option<bool>, friendRequests: Option<bool>)
    returns (fields: seq<(Column, nat)>, params: seq<Param>)
    ensures Built(fields, params, userId, NotificationClauses(dailyTheme, likes, comments, friendRequests))
  {
    fields := [];
    params := [IdParam(userId)];
    var paramIndex := 2;
    ghost var g: seq<(Column, bool)> := [];
    BuiltAppend(fields, params, userId, g, DailyThemeColumn, dailyTheme);
    if dailyTheme.Some? {
      fields := fields + [(DailyThemeColumn, paramIndex)];
      paramIndex := paramIndex + 1;
      params := params + [FlagParam(dailyTheme.value)];
    }
    g := g + Given(DailyThemeColumn, dailyTheme);
    assert Built(fields, params, userId, g) && paramIndex == |fields| + 2;
    BuiltAppend(fields, params, userId, g, LikesColumn, likes);
    if likes.Some? {
      fields := fields + [(LikesColumn, paramIndex)];
      paramIndex := paramIndex + 1;
      params := params + [FlagParam(likes.value)];
    }
    g := g + Given(LikesColumn, likes);
    assert Built(fields, params, userId, g) && paramIndex == |fields| + 2;
    BuiltAppend(fields, params, userId, g, CommentsColumn, comments);
    if comments.Some? {
      fields := fields + [(CommentsColumn, paramIndex)];
      paramIndex := paramIndex + 1;
      params := params + [FlagParam(comments.value)];
    }
    g := g + Given(CommentsColumn, comments);
    assert Built(fields, params, userId, g) && paramIndex == |fields| + 2;
    BuiltAppend(fields, params, userId, g, FriendRequestsColumn, friendRequests);
    if friendRequests.Some? {
      fields := fields + [(FriendRequestsColumn, paramIndex)];
      paramIndex := paramIndex + 1;
      params := params + [FlagParam(friendRequests.value)];
    }
    g := g + Given(FriendRequestsColumn, friendRequests);
    assert Built(fields, params, userId, g) && paramIndex == |fields| + 2;
    assert [] + Given(DailyThemeColumn, dailyTheme) == Given(DailyThemeColumn, dailyTheme);
  }

  /** The position of the first row whose id, as `idOf` reads it, is `id`. */
  function IndexOfId<T>(rows: seq<T>, idOf: T -> int, id: int): (r: Option<nat>)
    ensures r.Some? ==> r.value < |rows| && idOf(rows[r.value]) == id
    ensures r.None? ==> forall k :: 0 <= k < |rows| ==> idOf(rows[k]) != id
  {
    if rows == [] then None
    else if idOf(rows[0]) == id then Some(0)
    else
      match IndexOfId(rows[1..], idOf, id)
      case Some(k) => Some(k + 1)
      case None => None
  }

  /**
   * PUT /admin/themes/:id: 400 when no field is given, 404 for an unknown
   * theme, otherwise exactly the given fields of that theme are replaced.
   * The current-theme setting is not refreshed.
   */
  method UpdateTheme(svc: TS.Service, themeId: int, title: Option<string>, description: Option<Option<string>>, active: Option<bool>)
    returns (reply: Reply)
    requires svc.Valid()
    modifies svc`themes
    ensures svc.Valid()
    ensures svc.currentThemeSetting == old(svc.currentThemeSetting)
    ensures title.None? && description.None? && active.None? ==>
              reply == Reply(400, "No fields provided to update") && svc.themes == old(svc.themes)
    ensures (title.Some? || description.Some? || active.Some?) && IndexOfId(old(svc.themes), (t: TS.Theme) => t.id, themeId).None? ==>
              reply == Reply(404, "Theme not found") && svc.themes == old(svc.themes)
    ensures (title.Some? || description.Some? || active.Some?) && IndexOfId(old(svc.themes), (t: TS.Theme) => t.id, themeId).Some? ==>
              var k := IndexOfId(old(svc.themes), (t: TS.Theme) => t.id, themeId).value;
              var t := old(svc.themes)[k];
              && reply.status == 200
              && svc.themes == old(svc.themes)[k := TS.Theme(t.id,
                                                             if title.Some? then title.value else t.title,
                                                             if description.Some? then description.value else t.description,
                                                             if active.Some? then active.value else t.active)]
  {
    var fields, params := SetClauses(themeId, title, description, active);
    if |fields| == 0 {
      return Reply(400, "No fields provided to update");
    }
    var index := IndexOfId(svc.themes, (t: TS.Theme) => t.id, themeId);
    if index.None? {
      return Reply(404, "Theme not found");
    }
    var k := index.value;
    var current := svc.themes[k];
    var t := TS.Theme(current.id,
                      if title.Some? then title.value else current.title,
                      if description.Some? then description.value else current.description,
                      if active.Some? then active.value else current.active);
    svc.themes := svc.themes[k := t];
    reply := Reply(200, "");
    forall a, b | 0 <= a < b < |svc.themes| ensures svc.themes[a].id < svc.themes[b].id {
      assert svc.themes[a].id == old(svc.themes)[a].id && svc.themes[b].id == old(svc.themes)[b].id;
    }
  }

  /**
   * DELETE /admin/scheduled-themes/:id: 404 for an unknown assignment;
   * otherwise it is removed, and the current theme is refreshed exactly when
   * its date is today.
   */
  method DeleteScheduledTheme(svc: TS.Service, scheduleId: int, today: Date) returns (reply: Reply)
    requires svc.Valid()
    modifies svc`schedule, svc`currentThemeSetting
    ensures svc.Valid()
    ensures IndexOfId(old(svc.schedule), (a: TS.Assignment) => a.id, scheduleId).None? ==>
              reply == Reply(404, "Scheduled theme not found") && unchanged(svc)
    ensures IndexOfId(old(svc.schedule), (a: TS.Assignment) => a.id, scheduleId).Some? ==>
              var k := IndexOfId(old(svc.schedule), (a: TS.Assignment) => a.id, scheduleId).value;
              && reply == Reply(200, "Scheduled theme deleted")
              && svc.schedule == old(svc.schedule)[..k] + old(svc.schedule)[k + 1..]
              && svc.currentThemeSetting == if old(svc.schedule)[k].date == today
                                            then TS.Refreshed(old(svc.currentThemeSetting), svc.themes, svc.schedule, today)
                                            else old(svc.currentThemeSetting)
  {
    var index := IndexOfId(svc.schedule, (a: TS.Assignment) => a.id, scheduleId);
    if index.None? {
      return Reply(404, "Scheduled theme not found");
    }
    var k := index.value;
    var date := svc.schedule[k].date;
    RemoveAssignmentKeepsCalendar(svc.schedule, k, svc.nextAssignmentId);
    svc.schedule := svc.schedule[..k] + svc.schedule[k + 1..];
    if date == today {
      svc.UpdateCurrentTheme(today);
    }
    reply := Reply(200, "Scheduled theme deleted");
  }

  /** Removing one assignment keeps the calendar well formed. */
  lemma RemoveAssignmentKeepsCalendar(schedule: seq<TS.Assignment>, k: nat, nextId: nat)
    requires TS.CalendarWellFormed(schedule, nextId) && k < |schedule|
    ensures TS.CalendarWellFormed(schedule[..k] + schedule[k + 1..], nextId)
  {
    var s' := schedule[..k] + schedule[k + 1..];
    assert forall m :: 0 <= m < |s'| ==> s'[m] == schedule[if m < k then m else m + 1];
  }

  /** With one assignment per date, deleting today's assignment leaves no theme resolved for today. */
  lemma {:induction false} NoThemeAfterDeletingToday(themes: seq<TS.Theme>, schedule: seq<TS.Assignment>, k: nat, today: Date)
    requires TS.OnePerDate(schedule) && k < |schedule| && schedule[k].date == today
    ensures TS.ScheduledTheme(themes, schedule[..k] + schedule[k + 1..], today).None?
  {
    var s' := schedule[..k] + schedule[k + 1..];
    forall a | a in s' ensures a.date != today {
      var m :| 0 <= m < |s'| && s'[m] == a;
      if m < k { assert a == schedule[m]; } else { assert a == schedule[m + 1]; }
    }
  }

  /**
   * POST /admin/activate-theme/:themeId: 400 "Invalid theme ID" when the
   * parameter does not parse; otherwise manuallyActivateTheme, 200 on
   * success and 400 "Failed to activate theme" when it returns false.
   */
  method ActivateTheme(svc: TS.Service, themeIdParam: string, today: Date) returns (reply: Reply)
    requires svc.Valid()
    modifies svc`schedule, svc`nextAssignmentId, svc`currentThemeSetting
    ensures svc.Valid()
    ensures JsString.ParseInt(themeIdParam).None? ==> reply == Reply(400, "Invalid theme ID") && unchanged(svc)
    ensures JsString.ParseInt(themeIdParam).Some? ==>
              var id := JsString.ParseInt(themeIdParam).value;
              && (reply.status == 200 <==> TS.ActiveTheme(svc.themes, id).Some?)
              && (reply.status != 200 ==> reply == Reply(400, "Failed to activate theme") && unchanged(svc))
              && (reply.status == 200 ==>
                    && svc.schedule == TS.Upsert(old(svc.schedule), id as nat, today, old(svc.nextAssignmentId))
                    && svc.currentThemeSetting == TS.Refreshed(old(svc.currentThemeSetting), svc.themes, svc.schedule, today)
                    && TS.ScheduledTheme(svc.themes, svc.schedule, today) == TS.ActiveTheme(svc.themes, id)
                    && reply.message == "Theme " + JsString.NatToString(id as nat) + " has been manually activated for today"
                    && svc.nextAssignmentId
                       == old(svc.nextAssignmentId) + (if TS.HasAssignmentOn(old(svc.schedule), today) then 0 else 1))
  {
    var parsed := JsString.ParseInt(themeIdParam);
    if parsed.None? {
      return Reply(400, "Invalid theme ID");
    }
    var ok := svc.ManuallyActivateTheme(parsed.value, today);
    if ok {
      var theme := TS.ActiveTheme(svc.themes, parsed.value).value;
      var k :| 0 <= k < |svc.themes| && svc.themes[k] == theme;
      reply := Reply(200, "Theme " + JsString.NatToString(theme.id) + " has been manually activated for today");
    } else {
      reply := Reply(400, "Failed to activate theme");
    }
  }
}
