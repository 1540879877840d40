/**
 * The post controller: creating, deleting, commenting on and liking posts.
 * Each handler maps a store and a request to a reply and the effects the
 * request has, in the order the controller awaits them. `actor` is the
 * authenticated user the request carries.
 */
module PostController {
  import opened Js
  import opened Store
  import Media

  /**
   * `createPost`. `uploadedUrl` is the URL the media store answers an upload
   * with; `newId` is the id the new post document receives. A `newId`
   * already in use is the duplicate-key error `save` throws.
   */
  function CreatePost(db: Db, actor: Id, text: string, img: string, uploadedUrl: string, newId: Id): (o: Outcome)
    ensures actor !in db.users ==> o == Reject(404, Message("User not found!"))
    ensures actor in db.users && !Truthy(text) && !Truthy(img) ==> o == Reject(400, Error("Post must have text or image!"))
    ensures o.reply.status == 201 <==> actor in db.users && (Truthy(text) || Truthy(img)) && newId !in db.posts
  {
    if actor !in db.users then Reject(404, Message("User not found!"))
    else if !Truthy(text) && !Truthy(img) then Reject(400, Error("Post must have text or image!"))
    else
      var upload := if Truthy(img) then [MediaUpload(img)] else [];
      var stored := if Truthy(img) then uploadedUrl else img;
      if newId in db.posts then Outcome(Reply(500, Error("Internal Server Error!")), upload)
      else
        var post := Post(actor, text, stored, [], []);
        Outcome(Reply(201, PostBody(newId, post)), upload + [PostSave(newId, post)])
  }

  /**
   * A created post is the only change: it belongs to the actor, carries the
   * text as given and the uploaded URL when an image came with it, and starts
   * with no likes and no comments. The upload happens before the save.
   */
  lemma CreatePostAddsOnePost(db: Db, actor: Id, text: string, img: string, uploadedUrl: string, newId: Id)
    requires actor in db.users && (Truthy(text) || Truthy(img)) && newId !in db.posts
    ensures var o := CreatePost(db, actor, text, img, uploadedUrl, newId);
            var after := Run(db, o.effects);
      && after.posts.Keys == db.posts.Keys + {newId}
      && after.posts[newId] == Post(actor, text, if Truthy(img) then uploadedUrl else "", [], [])
      && (forall pid | pid in db.posts :: after.posts[pid] == db.posts[pid])
      && after.users == db.users
      && after.notifications == db.notifications
      && o.reply == Reply(201, PostBody(newId, after.posts[newId]))
      && (Truthy(img) ==> o.effects[0] == MediaUpload(img))
      && (!Truthy(img) ==> forall e | e in o.effects :: !e.MediaUpload?)
  {
    var post := Post(actor, text, if Truthy(img) then uploadedUrl else img, [], []);
    if Truthy(img) {
      RunTwo(db, MediaUpload(img), PostSave(newId, post));
    } else {
      assert [] + [PostSave(newId, post)] == [PostSave(newId, post)];
      RunOne(db, PostSave(newId, post));
    }
  }

  /**
   * Creating a post under a fresh id keeps likes and `likedPosts` in
   * agreement, follow lists inverse and likes free of repeats: the new post
   * has no likes, and no user's `likedPosts` names it yet.
   */
  lemma CreatePostKeepsConsistency(db: Db, actor: Id, text: string, img: string, uploadedUrl: string, newId: Id)
    requires LikesConsistent(db) && FollowConsistent(db) && LikesDistinct(db)
    requires Fresh(db, newId)
    ensures var after := Run(db, CreatePost(db, actor, text, img, uploadedUrl, newId).effects);
      LikesConsistent(after) && FollowConsistent(after) && LikesDistinct(after)
  {
    if actor in db.users && (Truthy(text) || Truthy(img)) {
      CreatePostAddsOnePost(db, actor, text, img, uploadedUrl, newId);
    }
  }

  /** `deletePost`: only the author may delete; the image, if any, is destroyed first. */
  function DeletePost(db: Db, actor: Id, pid: Id): (o: Outcome)
    ensures pid !in db.posts ==> o == Reject(404, Error("Post not found!"))
    ensures pid in db.posts && db.posts[pid].user != actor ==> o == Reject(401, Error("You are not authorized to delete this post"))
    ensures pid in db.posts && db.posts[pid].user == actor ==> o.reply == Reply(200, Message("Post deleted successfully!"))
  {
    if pid !in db.posts then Reject(404, Error("Post not found!"))
    else if db.posts[pid].user != actor then Reject(401, Error("You are not authorized to delete this post"))
    else
      var img := db.posts[pid].img;
      var destroy := if Truthy(img) then [MediaDestroy(Media.MediaId(img))] else [];
      Outcome(Reply(200, Message("Post deleted successfully!")), destroy + [PostDelete(pid)])
  }

  /**
   * Deleting by the author removes exactly that post. Nothing cascades: every
   * user, including the `likedPosts` that still name the post, and every
   * notification stay as they were. The media store is asked to destroy the
   * id cut from the image URL, before the post is deleted.
   */
  lemma DeletePostRemovesOnlyThatPost(db: Db, actor: Id, pid: Id)
    requires pid in db.posts && db.posts[pid].user == actor
    ensures var o := DeletePost(db, actor, pid);
            var after := Run(db, o.effects);
            var img := db.posts[pid].img;
      && after.posts == db.posts - {pid}
      && after.users == db.users
      && after.notifications == db.notifications
      && |o.effects| >= 1 && Last(o.effects) == PostDelete(pid)
      && (Truthy(img) ==> o.effects[0] == MediaDestroy(Media.MediaId(img)))
      && (!Truthy(img) ==> |o.effects| == 1)
  {
    var img := db.posts[pid].img;
    if Truthy(img) {
      RunTwo(db, MediaDestroy(Media.MediaId(img)), PostDelete(pid));
    } else {
      assert [] + [PostDelete(pid)] == [PostDelete(pid)];
      RunOne(db, PostDelete(pid));
    }
  }

  /**
   * Deleting a post right after creating it gives back the store as it was.
   * When the post came with an image, the media id cut from the uploaded URL
   * is the one destroyed.
   */
  lemma CreateThenDeleteRestores(db: Db, actor: Id, text: string, img: string, uploadedUrl: string, newId: Id)
    requires CreatePost(db, actor, text, img, uploadedUrl, newId).reply.status == 201
    ensures var mid := Run(db, CreatePost(db, actor, text, img, uploadedUrl, newId).effects);
            var o := DeletePost(mid, actor, newId);
      && o.reply == Reply(200, Message("Post deleted successfully!"))
      && Run(mid, o.effects) == db
      && (Truthy(img) && Truthy(uploadedUrl) ==> o.effects[0] == MediaDestroy(Media.MediaId(uploadedUrl)))
  {
    CreatePostAddsOnePost(db, actor, text, img, uploadedUrl, newId);
    var mid := Run(db, CreatePost(db, actor, text, img, uploadedUrl, newId).effects);
    DeletePostRemovesOnlyThatPost(mid, actor, newId);
    assert mid.posts - {newId} == db.posts;
  }

  /** Deleting a post breaks neither consistency rule: both speak only of posts that exist. */
  lemma DeletePostKeepsConsistency(db: Db, actor: Id, pid: Id)
    requires LikesConsistent(db) && FollowConsistent(db) && LikesDistinct(db)
    ensures var after := Run(db, DeletePost(db, actor, pid).effects);
      LikesConsistent(after) && FollowConsistent(after) && LikesDistinct(after)
  {
    if pid in db.posts && db.posts[pid].user == actor {
      DeletePostRemovesOnlyThatPost(db, actor, pid);
    }
  }

  /** `commentOnPost`: the text is checked before the post is looked up. */
  function CommentOnPost(db: Db, actor: Id, pid: Id, text: string): (o: Outcome)
    ensures !Truthy(text) ==> o == Reject(400, Error("Text field is required"))
    ensures Truthy(text) && pid !in db.posts ==> o == Reject(404, Error("Post not found"))
    ensures Truthy(text) && pid in db.posts ==> o.reply.status == 200
  {
    if !Truthy(text) then Reject(400, Error("Text field is required"))
    else if pid !in db.posts then Reject(404, Error("Post not found"))
    else
      var post := db.posts[pid];
      var commented := post.(comments := post.comments + [Comment(actor, text)]);
      Outcome(Reply(200, PostBody(pid, commented)), [PostSave(pid, commented)])
  }

  /**
   * A comment is appended to its post's comments and changes nothing else:
   * the post's other fields, the other posts, the users and the notifications
   * (no notification is sent for a comment).
   */
  lemma CommentAppends(db: Db, actor: Id, pid: Id, text: string)
    requires Truthy(text) && pid in db.posts
    ensures var o := CommentOnPost(db, actor, pid, text);
            var after := Run(db, o.effects);
            var before := db.posts[pid];
      && after.posts.Keys == db.posts.Keys
      && after.posts[pid].comments == before.comments + [Comment(actor, text)]
      && after.posts[pid] == before.(comments := after.posts[pid].comments)
      && (forall q | q in db.posts && q != pid :: after.posts[q] == db.posts[q])
      && after.users == db.users
      && after.notifications == db.notifications
      && o.reply == Reply(200, PostBody(pid, after.posts[pid]))
  {
    var post := db.posts[pid];
    RunOne(db, PostSave(pid, post.(comments := post.comments + [Comment(actor, text)])));
  }

  /** A comment touches no likes and no user, so every consistency rule survives it. */
  lemma CommentKeepsConsistency(db: Db, actor: Id, pid: Id, text: string)
    requires LikesConsistent(db) && FollowConsistent(db) && LikesDistinct(db)
    ensures var after := Run(db, CommentOnPost(db, actor, pid, text).effects);
      LikesConsistent(after) && FollowConsistent(after) && LikesDistinct(after)
  {
    if Truthy(text) && pid in db.posts {
      CommentAppends(db, actor, pid, text);
    }
  }

  /** Two comments in a row end up last on the post, in the order they were made. */
  lemma CommentsKeepOrder(db: Db, pid: Id, first: Comment, second: Comment)
    requires Truthy(first.text) && Truthy(second.text) && pid in db.posts
    ensures var mid := Run(db, CommentOnPost(db, first.user, pid, first.text).effects);
            var after := Run(mid, CommentOnPost(mid, second.user, pid, second.text).effects);
      pid in after.posts && after.posts[pid].comments == db.posts[pid].comments + [first, second]
  {
    CommentAppends(db, first.user, pid, first.text);
    var mid := Run(db, CommentOnPost(db, first.user, pid, first.text).effects);
    CommentAppends(mid, second.user, pid, second.text);
  }

  /**
   * `likeUnlikePost`. An unlike pulls the actor from the post, then the post
   * from the actor. A like pushes the post onto the actor's `likedPosts`,
   * saves the post with the actor appended to its likes, and notifies the
   * author last, the actor's own posts included.
   */
  function LikeUnlikePost(db: Db, actor: Id, pid: Id): (o: Outcome)
    ensures pid !in db.posts ==> o == Reject(404, Error("post not found !"))
    ensures pid in db.posts && actor in db.posts[pid].likes ==> o.reply == Reply(200, Message(" Post unliked successfully!"))
    ensures pid in db.posts && actor !in db.posts[pid].likes ==>
      o.reply.status == 200 && o.reply.body.Likes? && actor in o.reply.body.likes
  {
    if pid !in db.posts then Reject(404, Error("post not found !"))
    else
      var post := db.posts[pid];
      if actor in post.likes then
        Outcome(Reply(200, Message(" Post unliked successfully!")),
                [PostPullLike(pid, actor), UserPull(actor, LikedPosts, pid)])
      else
        var liked := post.(likes := post.likes + [actor]);
        Outcome(Reply(200, Likes(liked.likes)),
                [UserPush(actor, LikedPosts, pid), PostSave(pid, liked), NotificationSave(Notification(Like, actor, post.user))])
  }

  /**
   * A like appends the actor to the post's likes and the post to the actor's
   * `likedPosts` (when the actor's document exists), appends exactly one
   * like notification to the author, and answers with the new likes.
   */
  lemma LikeAddsBothSides(db: Db, actor: Id, pid: Id)
    requires pid in db.posts && actor !in db.posts[pid].likes
    ensures var o := LikeUnlikePost(db, actor, pid);
            var after := Run(db, o.effects);
            var post := db.posts[pid];
      && after.posts == db.posts[pid := post.(likes := post.likes + [actor])]
      && (actor in db.users ==>
            after.users == db.users[actor := db.users[actor].(likedPosts := db.users[actor].likedPosts + [pid])])
      && (actor !in db.users ==> after.users == db.users)
      && after.notifications == db.notifications + [Notification(Like, actor, post.user)]
      && o.reply == Reply(200, Likes(after.posts[pid].likes))
      && |o.effects| == 3
      && o.effects[0] == UserPush(actor, LikedPosts, pid)
      && o.effects[1].PostSave? && o.effects[1].pid == pid
      && o.effects[2] == NotificationSave(Notification(Like, actor, post.user))
  {
    var post := db.posts[pid];
    RunThree(db, UserPush(actor, LikedPosts, pid), PostSave(pid, post.(likes := post.likes + [actor])),
             NotificationSave(Notification(Like, actor, post.user)));
  }

  /**
   * An unlike removes every occurrence of the actor from the post's likes and
   * every occurrence of the post from the actor's `likedPosts`, post first,
   * and sends no notification.
   */
  lemma UnlikeRemovesBothSides(db: Db, actor: Id, pid: Id)
    requires pid in db.posts && actor in db.posts[pid].likes
    ensures var o := LikeUnlikePost(db, actor, pid);
            var after := Run(db, o.effects);
            var post := db.posts[pid];
      && after.posts == db.posts[pid := post.(likes := Pull(post.likes, actor))]
      && actor !in after.posts[pid].likes
      && (actor in db.users ==>
            && after.users == db.users[actor := db.users[actor].(likedPosts := Pull(db.users[actor].likedPosts, pid))]
            && pid !in after.users[actor].likedPosts)
      && (actor !in db.users ==> after.users == db.users)
      && after.notifications == db.notifications
      && o.effects == [PostPullLike(pid, actor), UserPull(actor, LikedPosts, pid)]
  {
    RunTwo(db, PostPullLike(pid, actor), UserPull(actor, LikedPosts, pid));
  }

  /** A like keeps likes and `likedPosts` in agreement and likes free of repeats. */
  lemma LikeKeepsLikes(db: Db, actor: Id, pid: Id)
    requires LikesConsistent(db) && LikesDistinct(db)
    requires pid in db.posts && actor !in db.posts[pid].likes
    ensures var after := Run(db, LikeUnlikePost(db, actor, pid).effects);
      LikesConsistent(after) && LikesDistinct(after) && after.users.Keys == db.users.Keys
  {
    var after := Run(db, LikeUnlikePost(db, actor, pid).effects);
    var likes := db.posts[pid].likes;
    LikeAddsBothSides(db, actor, pid);
    forall p, u | p in after.posts && u in after.users
      ensures u in after.posts[p].likes <==> p in after.users[u].likedPosts
    {
      assert u in db.posts[p].likes <==> p in db.users[u].likedPosts;
      if p == pid {
        assert after.posts[p].likes == Push(likes, actor);
      } else {
        assert after.posts[p].likes == db.posts[p].likes;
      }
      if u == actor {
        assert after.users[u].likedPosts == Push(db.users[u].likedPosts, pid);
      } else {
        assert after.users[u].likedPosts == db.users[u].likedPosts;
      }
    }
    forall p | p in after.posts ensures Distinct(after.posts[p].likes) {
      if p == pid {
        assert Distinct(likes);
      } else {
        assert after.posts[p] == db.posts[p];
      }
    }
  }

  /** An unlike keeps likes and `likedPosts` in agreement and likes free of repeats. */
  lemma UnlikeKeepsLikes(db: Db, actor: Id, pid: Id)
    requires LikesConsistent(db) && LikesDistinct(db)
    requires pid in db.posts && actor in db.posts[pid].likes
    ensures var after := Run(db, LikeUnlikePost(db, actor, pid).effects);
      LikesConsistent(after) && LikesDistinct(after) && after.users.Keys == db.users.Keys
  {
    var after := Run(db, LikeUnlikePost(db, actor, pid).effects);
    var likes := db.posts[pid].likes;
    UnlikeRemovesBothSides(db, actor, pid);
    forall p, u | p in after.posts && u in after.users
      ensures u in after.posts[p].likes <==> p in after.users[u].likedPosts
    {
      assert u in db.posts[p].likes <==> p in db.users[u].likedPosts;
      if p == pid {
        assert after.posts[p].likes == Pull(likes, actor);
      } else {
        assert after.posts[p].likes == db.posts[p].likes;
      }
      if u == actor {
        assert after.users[u].likedPosts == Pull(db.users[u].likedPosts, pid);
      } else {
        assert after.users[u].likedPosts == db.users[u].likedPosts;
      }
    }
    forall p | p in after.posts ensures Distinct(after.posts[p].likes) {
      if p == pid {
        PullKeepsDistinct(likes, actor);
      } else {
        assert after.posts[p] == db.posts[p];
      }
    }
  }

  /** Liking and unliking change no user's `following` or `followers`. */
  lemma LikeLeavesFollows(db: Db, actor: Id, pid: Id)
    ensures var after := Run(db, LikeUnlikePost(db, actor, pid).effects);
      forall u | u in after.users ::
        u in db.users && after.users[u].following == db.users[u].following
        && after.users[u].followers == db.users[u].followers
  {
    if pid in db.posts {
      if actor in db.posts[pid].likes {
        UnlikeRemovesBothSides(db, actor, pid);
      } else {
        LikeAddsBothSides(db, actor, pid);
      }
    }
  }

  /** A like or an unlike keeps likes and `likedPosts` in agreement, keeps likes free of repeats, and leaves follows alone. */
  lemma LikeKeepsConsistency(db: Db, actor: Id, pid: Id)
    requires LikesConsistent(db) && LikesDistinct(db) && FollowConsistent(db)
    ensures var after := Run(db, LikeUnlikePost(db, actor, pid).effects);
      LikesConsistent(after) && LikesDistinct(after) && FollowConsistent(after)
  {
    if pid in db.posts {
      if actor in db.posts[pid].likes {
        UnlikeKeepsLikes(db, actor, pid);
      } else {
        LikeKeepsLikes(db, actor, pid);
      }
    }
    var after := Run(db, LikeUnlikePost(db, actor, pid).effects);
    LikeLeavesFollows(db, actor, pid);
    forall a, b | a in after.users && b in after.users
      ensures b in after.users[a].following <==> a in after.users[b].followers
    {
      assert b in db.users[a].following <==> a in db.users[b].followers;
    }
  }

  /** `$pull` never introduces a repeat. */
  lemma PullKeepsDistinct(xs: seq<Id>, v: Id)
    requires Distinct(xs)
    ensures Distinct(Pull(xs, v))
  {
    var r := Pull(xs, v);
    forall x ensures multiset(r)[x] <= 1 {
      DistinctCounts(xs, x);
    }
    CountsDistinct(r);
  }

  lemma {:induction false} DistinctCounts(xs: seq<Id>, x: Id)
    requires Distinct(xs)
    ensures multiset(xs)[x] <= 1
    decreases |xs|
  {
    if |xs| > 0 {
      assert xs == [xs[0]] + xs[1..];
      DistinctCounts(xs[1..], x);
      if x == xs[0] {
        assert x !in xs[1..] by {
          forall i | 0 <= i < |xs[1..]| ensures xs[1..][i] != x {
            assert xs[1..][i] == xs[i + 1];
          }
        }
      }
    }
  }

  lemma CountsDistinct(xs: seq<Id>)
    requires forall x :: multiset(xs)[x] <= 1
    ensures Distinct(xs)
  {
    forall i, j | 0 <= i < j < |xs| ensures xs[i] != xs[j] {
      var x := xs[i];
      assert xs == xs[..j] + xs[j..];
      assert xs[..j][i] == x;
      assert multiset(xs)[x] == multiset(xs[..j])[x] + multiset(xs[j..])[x];
      assert multiset(xs[..j])[x] >= 1;
    }
  }

  /**
   * Toggling a like twice restores whether the actor likes the post and,
   * when likes and `likedPosts` agreed before, whether the post is in the
   * actor's `likedPosts`.
   */
  lemma LikeTwiceRestores(db: Db, actor: Id, pid: Id)
    requires pid in db.posts
    ensures var mid := Run(db, LikeUnlikePost(db, actor, pid).effects);
            var after := Run(mid, LikeUnlikePost(mid, actor, pid).effects);
      && pid in after.posts
      && (actor in after.posts[pid].likes <==> actor in db.posts[pid].likes)
      && (LikesConsistent(db) && actor in db.users ==>
            actor in after.users && (pid in after.users[actor].likedPosts <==> pid in db.users[actor].likedPosts))
  {
    var mid := Run(db, LikeUnlikePost(db, actor, pid).effects);
    if actor in db.posts[pid].likes {
      UnlikeRemovesBothSides(db, actor, pid);
      LikeAddsBothSides(mid, actor, pid);
    } else {
      LikeAddsBothSides(db, actor, pid);
      UnlikeRemovesBothSides(mid, actor, pid);
    }
  }
}
