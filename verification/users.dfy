/**
 * The user controller: following and unfollowing, suggesting users to
 * follow, and updating one's own profile.
 */
module UserController {
  import opened Js
  import opened Store
  import Media
  import opened Credential

  // -----------------------------------------------------------------------
  // followUnfollowUser
  // -----------------------------------------------------------------------

  /**
   * `followUnfollowUser`: `actor` toggles whether it follows `target`.
   * Self-follow is refused before the check that both users exist. A follow writes
   * the target's followers, then the actor's following, then the notification.
   */
  function FollowUnfollowUser(db: Db, actor: Id, target: Id): (o: Outcome)
    ensures actor == target ==> o == Reject(400, Error("You can't follow or unfollow yourself"))
    ensures actor != target && (target !in db.users || actor !in db.users) ==> o == Reject(404, Error("User not found!"))
    ensures actor != target && target in db.users && actor in db.users ==>
      && o.reply.status == 200
      && (o.reply.body == Message("User unfollowed successfully") <==> target in db.users[actor].following)
      && (o.reply.body == Message("User followed successfully") <==> target !in db.users[actor].following)
  {
    if actor == target then Reject(400, Error("You can't follow or unfollow yourself"))
    else if target !in db.users || actor !in db.users then Reject(404, Error("User not found!"))
    else if target in db.users[actor].following then
      Outcome(Reply(200, Message("User unfollowed successfully")),
              [UserPull(target, Followers, actor), UserPull(actor, Following, target)])
    else
      Outcome(Reply(200, Message("User followed successfully")),
              [UserPush(target, Followers, actor), UserPush(actor, Following, target),
               NotificationSave(Notification(Follow, actor, target))])
  }

  /**
   * A follow appends the actor to the target's followers and the target to
   * the actor's following, in that order, then appends exactly one follow
   * notification. No other user and no post changes.
   */
  lemma FollowAddsBothSides(db: Db, actor: Id, target: Id)
    requires actor != target && actor in db.users && target in db.users
    requires target !in db.users[actor].following
    ensures var o := FollowUnfollowUser(db, actor, target);
            var after := Run(db, o.effects);
            var a := db.users[actor];
            var t := db.users[target];
      && after.users == db.users[target := t.(followers := t.followers + [actor])]
                                [actor := a.(following := a.following + [target])]
      && after.posts == db.posts
      && after.notifications == db.notifications + [Notification(Follow, actor, target)]
      && o.effects == [UserPush(target, Followers, actor), UserPush(actor, Following, target),
                       NotificationSave(Notification(Follow, actor, target))]
  {
    RunThree(db, UserPush(target, Followers, actor), UserPush(actor, Following, target),
             NotificationSave(Notification(Follow, actor, target)));
  }

  /**
   * An unfollow removes every occurrence of the actor from the target's
   * followers and of the target from the actor's following, target first,
   * and sends no notification.
   */
  lemma UnfollowRemovesBothSides(db: Db, actor: Id, target: Id)
    requires actor != target && actor in db.users && target in db.users
    requires target in db.users[actor].following
    ensures var o := FollowUnfollowUser(db, actor, target);
            var after := Run(db, o.effects);
            var a := db.users[actor];
            var t := db.users[target];
      && after.users == db.users[target := t.(followers := Pull(t.followers, actor))]
                                [actor := a.(following := Pull(a.following, target))]
      && actor !in after.users[target].followers
      && target !in after.users[actor].following
      && after.posts == db.posts
      && after.notifications == db.notifications
      && o.effects == [UserPull(target, Followers, actor), UserPull(actor, Following, target)]
  {
    RunTwo(db, UserPull(target, Followers, actor), UserPull(actor, Following, target));
  }

  /** A follow, user by user: only the actor's `following` and the target's `followers` grow. */
  lemma FollowPerUser(db: Db, actor: Id, target: Id)
    requires actor != target && actor in db.users && target in db.users
    requires target !in db.users[actor].following
    ensures var after := Run(db, FollowUnfollowUser(db, actor, target).effects);
      && after.users.Keys == db.users.Keys
      && after.posts == db.posts
      && after.users[actor].following == Push(db.users[actor].following, target)
      && after.users[target].followers == Push(db.users[target].followers, actor)
      && forall u | u in db.users ::
           && after.users[u].likedPosts == db.users[u].likedPosts
           && (u != actor ==> after.users[u].following == db.users[u].following)
           && (u != target ==> after.users[u].followers == db.users[u].followers)
           && (u != actor && u != target ==> after.users[u] == db.users[u])
  {
    FollowAddsBothSides(db, actor, target);
  }

  /** An unfollow, user by user: only the actor's `following` and the target's `followers` shrink. */
  lemma UnfollowPerUser(db: Db, actor: Id, target: Id)
    requires actor != target && actor in db.users && target in db.users
    requires target in db.users[actor].following
    ensures var after := Run(db, FollowUnfollowUser(db, actor, target).effects);
      && after.users.Keys == db.users.Keys
      && after.posts == db.posts
      && after.users[actor].following == Pull(db.users[actor].following, target)
      && after.users[target].followers == Pull(db.users[target].followers, actor)
      && forall u | u in db.users ::
           && after.users[u].likedPosts == db.users[u].likedPosts
           && (u != actor ==> after.users[u].following == db.users[u].following)
           && (u != target ==> after.users[u].followers == db.users[u].followers)
           && (u != actor && u != target ==> after.users[u] == db.users[u])
  {
    UnfollowRemovesBothSides(db, actor, target);
  }

  /** A follow keeps `following` and `followers` inverse. */
  lemma FollowKeepsFollowConsistent(db: Db, actor: Id, target: Id)
    requires FollowConsistent(db)
    requires actor != target && actor in db.users && target in db.users
    requires target !in db.users[actor].following
    ensures FollowConsistent(Run(db, FollowUnfollowUser(db, actor, target).effects))
  {
    var after := Run(db, FollowUnfollowUser(db, actor, target).effects);
    FollowPerUser(db, actor, target);
    forall x, y | x in after.users && y in after.users
      ensures y in after.users[x].following <==> x in after.users[y].followers
    {
      assert y in db.users[x].following <==> x in db.users[y].followers;
      if x == actor {
        assert after.users[x].following == Push(db.users[x].following, target);
      } else {
        assert after.users[x].following == db.users[x].following;
      }
      if y == target {
        assert after.users[y].followers == Push(db.users[y].followers, actor);
      } else {
        assert after.users[y].followers == db.users[y].followers;
      }
    }
  }

  /** An unfollow keeps `following` and `followers` inverse. */
  lemma UnfollowKeepsFollowConsistent(db: Db, actor: Id, target: Id)
    requires FollowConsistent(db)
    requires actor != target && actor in db.users && target in db.users
    requires target in db.users[actor].following
    ensures FollowConsistent(Run(db, FollowUnfollowUser(db, actor, target).effects))
  {
    var after := Run(db, FollowUnfollowUser(db, actor, target).effects);
    UnfollowPerUser(db, actor, target);
    forall x, y | x in after.users && y in after.users
      ensures y in after.users[x].following <==> x in after.users[y].followers
    {
      assert y in db.users[x].following <==> x in db.users[y].followers;
      if x == actor {
        assert after.users[x].following == Pull(db.users[x].following, target);
      } else {
        assert after.users[x].following == db.users[x].following;
      }
      if y == target {
        assert after.users[y].followers == Pull(db.users[y].followers, actor);
      } else {
        assert after.users[y].followers == db.users[y].followers;
      }
    }
  }

  /** Each toggle keeps `following` and `followers` inverse, and leaves likes alone. */
  lemma FollowKeepsConsistency(db: Db, actor: Id, target: Id)
    requires FollowConsistent(db) && LikesConsistent(db)
    ensures var after := Run(db, FollowUnfollowUser(db, actor, target).effects);
      FollowConsistent(after) && LikesConsistent(after)
  {
    if actor != target && actor in db.users && target in db.users {
      var after := Run(db, FollowUnfollowUser(db, actor, target).effects);
      if target in db.users[actor].following {
        UnfollowKeepsFollowConsistent(db, actor, target);
        UnfollowPerUser(db, actor, target);
      } else {
        FollowKeepsFollowConsistent(db, actor, target);
        FollowPerUser(db, actor, target);
      }
      forall p, u | p in after.posts && u in after.users
        ensures u in after.posts[p].likes <==> p in after.users[u].likedPosts
      {
        assert u in db.users;
      }
    }
  }

  /**
   * Toggling twice restores whether the actor follows the target and, when
   * the two lists agreed before, whether the target counts the actor among
   * its followers; list positions may change. Users other than the two are
   * untouched throughout.
   */
  lemma FollowTwiceRestores(db: Db, actor: Id, target: Id)
    requires actor != target && actor in db.users && target in db.users
    ensures var mid := Run(db, FollowUnfollowUser(db, actor, target).effects);
            var after := Run(mid, FollowUnfollowUser(mid, actor, target).effects);
      && after.users.Keys == db.users.Keys
      && (target in after.users[actor].following <==> target in db.users[actor].following)
      && (FollowConsistent(db) ==>
            (actor in after.users[target].followers <==> actor in db.users[target].followers))
      && (forall u | u in db.users && u != actor && u != target :: after.users[u] == db.users[u])
  {
    var mid := Run(db, FollowUnfollowUser(db, actor, target).effects);
    if target in db.users[actor].following {
      UnfollowPerUser(db, actor, target);
      FollowPerUser(mid, actor, target);
    } else {
      FollowPerUser(db, actor, target);
      UnfollowPerUser(mid, actor, target);
    }
    if FollowConsistent(db) {
      assert target in db.users[actor].following <==> actor in db.users[target].followers;
    }
  }

  // -----------------------------------------------------------------------
  // getSuggestedUsers
  // -----------------------------------------------------------------------

  /** The `$match` stage: an existing user other than the caller. */
  function Eligible(db: Db, caller: Id): Id -> bool {
    (id: Id) => id in db.users && id != caller
  }

  /**
   * The aggregation `$match: { _id: { $ne: caller } }, $sample: { size: 10 }`.
   * The sampler's randomness is the parameter `draw`, any sequence of ids;
   * the sample is the first ten eligible users in it. `SampleOfShuffle`
   * gives the sample `$sample` itself draws.
   */
  function Sample(db: Db, caller: Id, draw: seq<Id>): (sample: seq<Id>)
    ensures |sample| <= 10
    ensures forall i :: 0 <= i < |sample| ==> sample[i] in db.users && sample[i] != caller
  {
    Take(Filter(draw, Eligible(db, caller)), 10)
  }

  /**
   * A draw that visits every user other than the caller exactly once, as
   * `$sample` does, gives `min(10, N)` distinct users, where N is the number
   * of users other than the caller.
   */
  lemma SampleOfShuffle(db: Db, caller: Id, draw: seq<Id>)
    requires Distinct(draw)
    requires forall id :: id in draw <==> id in db.users && id != caller
    ensures var n := |db.users.Keys - {caller}|;
      |Sample(db, caller, draw)| == (if n < 10 then n else 10)
    ensures Distinct(Sample(db, caller, draw))
  {
    var keep := Eligible(db, caller);
    forall i | 0 <= i < |draw| ensures keep(draw[i]) {
      assert draw[i] in draw;
    }
    FilterKeepsAll(draw, keep);
    assert Sample(db, caller, draw) == Take(draw, 10);
    DistinctSize(draw);
    assert Members(draw) == db.users.Keys - {caller};
  }

  /** The filter `!following.includes(user._id)`. */
  function NotIn(following: seq<Id>): Id -> bool {
    (id: Id) => id !in following
  }

  /** The ids of a list of user documents, in order. */
  function Ids(docs: seq<UserDoc>): (ids: seq<Id>)
    ensures |ids| == |docs| && forall i :: 0 <= i < |docs| ==> ids[i] == docs[i].id
  {
    seq(|docs|, i requires 0 <= i < |docs| => docs[i].id)
  }

  /** A user document as a response shows it: the password nulled. */
  function Redacted(db: Db, id: Id): UserDoc
    requires id in db.users
  {
    UserDoc(id, db.users[id].(password := None))
  }

  /**
   * The ids `getSuggestedUsers` answers with: the sampled users the caller
   * does not follow, the first four of them, in sample order.
   */
  function Suggested(db: Db, caller: Id, draw: seq<Id>): (ids: seq<Id>)
    requires caller in db.users
    ensures |ids| <= 4
    ensures IsSubsequence(ids, Sample(db, caller, draw))
    ensures forall i | 0 <= i < |ids| ::
      ids[i] in db.users && ids[i] != caller && ids[i] !in db.users[caller].following
    ensures |ids| < 4 ==>
      forall x | x in Sample(db, caller, draw) && x !in db.users[caller].following :: x in ids
  {
    var sample := Sample(db, caller, draw);
    var following := db.users[caller].following;
    var kept := Filter(sample, NotIn(following));
    var ids := Take(kept, 4);
    FilterIsSubsequence(sample, NotIn(following));
    SubsequencePrefix(kept, sample, |ids|);
    forall i | 0 <= i < |ids| ensures ids[i] in sample {
      SubsequenceMembers(kept, sample, ids[i]);
    }
    forall x | x in sample && x !in following ensures x in kept {
      FilterKeepsMember(sample, NotIn(following), x);
    }
    ids
  }

  /**
   * The suggestions are the first four sampled users the caller does not
   * follow: an unfollowed user sampled before a suggested one is suggested
   * too. The sample is taken without repeats, as `$sample` draws it.
   */
  lemma SuggestedAreFirst(db: Db, caller: Id, draw: seq<Id>)
    requires caller in db.users && Distinct(Sample(db, caller, draw))
    ensures var s := Sample(db, caller, draw);
            var ids := Suggested(db, caller, draw);
      forall j, k | 0 <= j < k < |s| && s[k] in ids && s[j] !in db.users[caller].following :: s[j] in ids
  {
    var s := Sample(db, caller, draw);
    var following := db.users[caller].following;
    var ids := Suggested(db, caller, draw);
    assert ids == Take(Filter(s, NotIn(following)), 4);
    var f := Filter(s, NotIn(following));
    forall j, k | 0 <= j < k < |s| && s[k] in ids && s[j] !in following ensures s[j] in ids {
      // the kept users up to `s[j]` begin `f` and end with `s[j]`; `s[k]` is not among them
      FilterUpTo(s, NotIn(following), j);
      var p := Filter(s[..j + 1], NotIn(following));
      forall m | 0 <= m < |p| ensures f[m] != s[k] {
        assert f[m] == p[m] && p[m] in s[..j + 1];
        assert forall l | 0 <= l < j + 1 :: s[..j + 1][l] == s[l] && s[l] != s[k];
      }
      var i :| 0 <= i < |ids| && ids[i] == s[k];
      assert f[i] == s[k];
      assert ids[|p| - 1] == s[j];
    }
  }

  /**
   * `getSuggestedUsers`: the suggested users, each with its password nulled.
   * For a caller without a document, `usersFollowedByMe` is null: the filter
   * throws on its first sampled user, and an empty sample is answered with
   * an empty list.
   */
  method SuggestedUsers(db: Db, caller: Id, draw: seq<Id>) returns (reply: Reply)
    ensures caller !in db.users && |Sample(db, caller, draw)| > 0 ==> reply == Reply(500, Crash)
    ensures caller !in db.users && Sample(db, caller, draw) == [] ==> reply == Reply(200, Users([]))
    ensures caller in db.users ==>
      && reply.status == 200 && reply.body.Users?
      && Ids(reply.body.docs) == Suggested(db, caller, draw)
      && forall i | 0 <= i < |reply.body.docs| ::
           reply.body.docs[i].id in db.users
           && reply.body.docs[i].user == db.users[reply.body.docs[i].id].(password := None)
  {
    var sample := Sample(db, caller, draw);
    if caller !in db.users {
      // the filter's callback reads `.following` of null once per sampled user
      if |sample| > 0 {
        return Reply(500, Crash);
      }
      return Reply(200, Users([]));
    }
    var following := db.users[caller].following;
    // users.filter(user => !following.includes(user._id))
    var kept: seq<Id> := [];
    var i := 0;
    while i < |sample|
      invariant 0 <= i <= |sample|
      invariant kept == Filter(sample[..i], NotIn(following))
    {
      FilterAppend(sample[..i], [sample[i]], NotIn(following));
      assert sample[..i + 1] == sample[..i] + [sample[i]];
      if sample[i] !in following {
        kept := kept + [sample[i]];
      }
      i := i + 1;
    }
    assert sample[..i] == sample;
    // .slice(0, 4), then each password nulled
    var shown := Take(kept, 4);
    var docs := seq(|shown|, k requires 0 <= k < |shown| => Redacted(db, shown[k]));
    assert Ids(docs) == shown;
    reply := Reply(200, Users(docs));
  }

  // -----------------------------------------------------------------------
  // updateUser
  // -----------------------------------------------------------------------

  /** The fields `updateUser` reads from the request body; absent ones are empty. */
  datatype ProfileForm = ProfileForm(
    fullName: string, email: string, username: string,
    currentPassword: string, newPassword: string,
    bio: string, link: string, profileImg: string, coverImg: string)

  /** What the password part of `updateUser` decides. */
  datatype PasswordCheck =
    | Keep                      // neither password given
    | Replace(digest: string)   // both given and accepted: the new digest
    | Refuse(reason: string)    // answered with 400 and this error
    | Throws                    // bcrypt.compare against a null digest throws

  /**
   * The password checks of `updateUser`, in order: both or neither password,
   * then the current password against the stored digest, then the length of
   * the new one.
   */
  function CheckPassword(form: ProfileForm, stored: Option<string>): (c: PasswordCheck)
    ensures Truthy(form.currentPassword) != Truthy(form.newPassword) ==>
              c == Refuse("Please provide both current password and new password")
    ensures !Truthy(form.currentPassword) && !Truthy(form.newPassword) ==> c == Keep
    ensures (Truthy(form.currentPassword) && Truthy(form.newPassword) && stored.Some?
              && !Compare(form.currentPassword, stored.value)) ==> c == Refuse("Current password is incorrect")
    ensures (Truthy(form.currentPassword) && Truthy(form.newPassword) && stored.Some?
              && Compare(form.currentPassword, stored.value) && |form.newPassword| < 6)
              ==> c == Refuse("Password must be at least 6 characters long")
    ensures c.Replace? <==>
              && Truthy(form.currentPassword) && stored.Some?
              && Compare(form.currentPassword, stored.value) && |form.newPassword| >= 6
    ensures c.Replace? ==> c.digest == Hash(form.newPassword)
    ensures c.Throws? <==> Truthy(form.currentPassword) && Truthy(form.newPassword) && stored.None?
  {
    var current, next := form.currentPassword, form.newPassword;
    if (!Truthy(current) && Truthy(next)) || (!Truthy(next) && Truthy(current)) then
      Refuse("Please provide both current password and new password")
    else if Truthy(current) && Truthy(next) then
      if stored.None? then Throws
      else if !Compare(current, stored.value) then Refuse("Current password is incorrect")
      else if |next| < 6 then Refuse("Password must be at least 6 characters long")
      else Replace(Hash(next))
    else Keep
  }

  /**
   * The media calls for one image of `updateUser`: when a new image is
   * given, the old one (if any) is destroyed, then the new one uploaded.
   */
  function ImageCalls(requested: string, current: string): seq<Effect> {
    if Truthy(requested) then
      (if Truthy(current) then [MediaDestroy(Media.MediaId(current))] else []) + [MediaUpload(requested)]
    else []
  }

  /**
   * The image `updateUser` saves: the uploaded URL when a new image was
   * given, and the current one when that is falsy.
   */
  function ImageAfter(requested: string, current: string, uploadedUrl: string): string {
    Or(if Truthy(requested) then uploadedUrl else requested, current)
  }

  /**
   * The user `updateUser` saves when the password checks pass: each text
   * field and image replaced by its new value when that is truthy.
   */
  function Updated(user: User, form: ProfileForm, profileUrl: string, coverUrl: string): User {
    var check := CheckPassword(form, user.password);
    user.(
      password := if check.Replace? then Some(check.digest) else user.password,
      fullName := Or(form.fullName, user.fullName),
      email := Or(form.email, user.email),
      username := Or(form.username, user.username),
      bio := Or(form.bio, user.bio),
      link := Or(form.link, user.link),
      profileImg := ImageAfter(form.profileImg, user.profileImg, profileUrl),
      coverImg := ImageAfter(form.coverImg, user.coverImg, coverUrl))
  }

  /** The media calls of `updateUser`: the profile image's, then the cover image's. */
  function UpdateCalls(user: User, form: ProfileForm): seq<Effect> {
    ImageCalls(form.profileImg, user.profileImg) + ImageCalls(form.coverImg, user.coverImg)
  }

  /**
   * `updateUser`. `profileUrl` and `coverUrl` are the URLs the media store
   * answers the two uploads with.
   */
  function UpdateUser(db: Db, actor: Id, form: ProfileForm, profileUrl: string, coverUrl: string): (o: Outcome)
    ensures actor !in db.users ==> o == Reject(404, Message("User not found!"))
    ensures actor in db.users && CheckPassword(form, db.users[actor].password).Refuse? ==>
              o == Reject(400, Error(CheckPassword(form, db.users[actor].password).reason))
    ensures actor in db.users && CheckPassword(form, db.users[actor].password).Throws? ==> o == Reject(500, Crash)
    ensures o.reply.status == 200 ==> o.reply.body.UserBody? && o.reply.body.doc.user.password == None
  {
    if actor !in db.users then Reject(404, Message("User not found!"))
    else
      var user := db.users[actor];
      var check := CheckPassword(form, user.password);
      if check.Refuse? then Reject(400, Error(check.reason))
      else if check.Throws? then Reject(500, Crash)
      else
        var updated := Updated(user, form, profileUrl, coverUrl);
        Outcome(Reply(200, UserBody(UserDoc(actor, updated.(password := None)))),
                UpdateCalls(user, form) + [UserSave(actor, updated)])
  }

  /**
   * An accepted update replaces the actor's document and nothing else, and
   * answers with the saved document, password nulled. The media calls come
   * first and the save last.
   */
  lemma UpdateUserSaves(db: Db, actor: Id, form: ProfileForm, profileUrl: string, coverUrl: string)
    requires actor in db.users
    requires var c := CheckPassword(form, db.users[actor].password); c.Keep? || c.Replace?
    ensures var o := UpdateUser(db, actor, form, profileUrl, coverUrl);
            var saved := Updated(db.users[actor], form, profileUrl, coverUrl);
      && Run(db, o.effects) == db.(users := db.users[actor := saved])
      && o.reply == Reply(200, UserBody(UserDoc(actor, saved.(password := None))))
      && |o.effects| >= 1 && Last(o.effects) == UserSave(actor, saved)
      && forall i | 0 <= i < |o.effects| - 1 :: o.effects[i].MediaUpload? || o.effects[i].MediaDestroy?
  {
    var o := UpdateUser(db, actor, form, profileUrl, coverUrl);
    var user := db.users[actor];
    var calls := UpdateCalls(user, form);
    var save := UserSave(actor, Updated(user, form, profileUrl, coverUrl));
    assert o.effects == calls + [save];
    assert forall e | e in calls :: e.MediaUpload? || e.MediaDestroy?;
    RunAppend(db, calls, [save]);
    MediaCallsChangeNothing(db, calls);
    RunOne(db, save);
  }

  /**
   * An accepted update merges the form into the actor's document: each text
   * field and each image takes the new value when it is non-empty and keeps
   * the old one otherwise, the password becomes the new digest only when a
   * change was accepted, and the follow and like lists are untouched. No
   * other document changes. An old profile image is destroyed before its
   * replacement is uploaded; `UpdateCallsOrder` gives the order for both
   * images.
   */
  lemma UpdateUserMerges(db: Db, actor: Id, form: ProfileForm, profileUrl: string, coverUrl: string)
    requires actor in db.users
    requires var c := CheckPassword(form, db.users[actor].password); c.Keep? || c.Replace?
    ensures var o := UpdateUser(db, actor, form, profileUrl, coverUrl);
            var after := Run(db, o.effects);
            var before := db.users[actor];
      && after.users.Keys == db.users.Keys
      && (forall u | u in db.users && u != actor :: after.users[u] == db.users[u])
      && after.posts == db.posts && after.notifications == db.notifications
      && var now := after.users[actor];
      && now.fullName == (if Truthy(form.fullName) then form.fullName else before.fullName)
      && now.email == (if Truthy(form.email) then form.email else before.email)
      && now.username == (if Truthy(form.username) then form.username else before.username)
      && now.bio == (if Truthy(form.bio) then form.bio else before.bio)
      && now.link == (if Truthy(form.link) then form.link else before.link)
      && (Truthy(form.profileImg) && Truthy(profileUrl) ==> now.profileImg == profileUrl)
      && (!Truthy(form.profileImg) ==> now.profileImg == before.profileImg)
      && (Truthy(form.coverImg) && Truthy(coverUrl) ==> now.coverImg == coverUrl)
      && (!Truthy(form.coverImg) ==> now.coverImg == before.coverImg)
      && (Truthy(form.newPassword) ==> now.password == Some(Hash(form.newPassword)))
      && (!Truthy(form.newPassword) ==> now.password == before.password)
      && now.followers == before.followers && now.following == before.following
      && now.likedPosts == before.likedPosts
      && (Truthy(form.profileImg) && Truthy(before.profileImg) ==>
            o.effects[0] == MediaDestroy(Media.MediaId(before.profileImg)) && o.effects[1] == MediaUpload(form.profileImg))
  {
    UpdateUserSaves(db, actor, form, profileUrl, coverUrl);
  }

  /**
   * The media calls of `updateUser`, for each image in turn: a new image
   * destroys the old one, when there is one, and is then uploaded; an image
   * not given causes no call.
   */
  lemma UpdateCallsOrder(user: User, form: ProfileForm)
    ensures var calls := UpdateCalls(user, form);
            var k := |ImageCalls(form.profileImg, user.profileImg)|;
      && (Truthy(form.profileImg) && Truthy(user.profileImg) ==>
            k == 2 && calls[0] == MediaDestroy(Media.MediaId(user.profileImg)) && calls[1] == MediaUpload(form.profileImg))
      && (Truthy(form.profileImg) && !Truthy(user.profileImg) ==> k == 1 && calls[0] == MediaUpload(form.profileImg))
      && (!Truthy(form.profileImg) ==> k == 0)
      && (Truthy(form.coverImg) && Truthy(user.coverImg) ==>
            |calls| == k + 2 && calls[k] == MediaDestroy(Media.MediaId(user.coverImg)) && calls[k + 1] == MediaUpload(form.coverImg))
      && (Truthy(form.coverImg) && !Truthy(user.coverImg) ==> |calls| == k + 1 && calls[k] == MediaUpload(form.coverImg))
      && (!Truthy(form.coverImg) ==> |calls| == k)
  {
  }

  /**
   * An update touches no follow list, no `likedPosts` and no post, so every
   * consistency rule survives it.
   */
  lemma UpdateUserKeepsConsistency(db: Db, actor: Id, form: ProfileForm, profileUrl: string, coverUrl: string)
    requires LikesConsistent(db) && FollowConsistent(db) && LikesDistinct(db)
    ensures var after := Run(db, UpdateUser(db, actor, form, profileUrl, coverUrl).effects);
      LikesConsistent(after) && FollowConsistent(after) && LikesDistinct(after)
  {
    if actor in db.users {
      var c := CheckPassword(form, db.users[actor].password);
      if c.Keep? || c.Replace? {
        UpdateUserMerges(db, actor, form, profileUrl, coverUrl);
      }
    }
  }

  /**
   * After an accepted password change the stored digest accepts the new
   * password and no longer the old one, so a later update may give the new
   * password as the current one.
   */
  lemma ChangedPasswordTakesEffect(db: Db, actor: Id, form: ProfileForm, profileUrl: string, coverUrl: string,
                                   later: ProfileForm)
    requires actor in db.users
    requires CheckPassword(form, db.users[actor].password).Replace?
    requires later.currentPassword == form.newPassword && Truthy(later.newPassword)
    ensures var after := Run(db, UpdateUser(db, actor, form, profileUrl, coverUrl).effects);
      && actor in after.users
      && after.users[actor].password == Some(Hash(form.newPassword))
      && (form.currentPassword != form.newPassword ==>
            !Compare(form.currentPassword, after.users[actor].password.value))
      && CheckPassword(later, after.users[actor].password) != Refuse("Current password is incorrect")
  {
    UpdateUserMerges(db, actor, form, profileUrl, coverUrl);
    CompareOwnDigest(form.newPassword, form.currentPassword);
  }

  /** An update with an empty form saves the document unchanged: the store is as it was. */
  lemma EmptyUpdateChangesNothing(db: Db, actor: Id, profileUrl: string, coverUrl: string)
    requires actor in db.users
    ensures var o := UpdateUser(db, actor, ProfileForm("", "", "", "", "", "", "", "", ""), profileUrl, coverUrl);
      && Run(db, o.effects) == db
      && o.reply == Reply(200, UserBody(UserDoc(actor, db.users[actor].(password := None))))
      && o.effects == [UserSave(actor, db.users[actor])]
  {
    var form := ProfileForm("", "", "", "", "", "", "", "", "");
    UpdateUserSaves(db, actor, form, profileUrl, coverUrl);
    assert Updated(db.users[actor], form, profileUrl, coverUrl) == db.users[actor];
    assert db.users[actor := db.users[actor]] == db.users;
  }
}
