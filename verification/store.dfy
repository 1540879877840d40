/**
 * The documents of the three collections the controllers write (users,
 * posts, notifications), the writes and media-store calls a request makes,
 * and the consistency rules between the collections.
 *
 * A request's writes are listed in the order the controller awaits them; the
 * store after the request is `Run(db, effects)`. MongoDB's update operators
 * have fixed meanings here: `$push` appends, duplicates included, and `$pull`
 * removes every equal element. Updating a document that does not exist
 * changes nothing, as `updateOne` and `findByIdAndUpdate` match nothing.
 */
module Store {
  import opened Js

  /** MongoDB ObjectIds; users and posts draw from the same space. */
  type Id = nat

  datatype Option<T> = None | Some(value: T)

  /** A user document; `password` is the stored digest, `None` once a response nulls it. */
  datatype User = User(
    username: string,
    fullName: string,
    email: string,
    password: Option<string>,
    followers: seq<Id>,
    following: seq<Id>,
    likedPosts: seq<Id>,
    profileImg: string,
    coverImg: string,
    bio: string,
    link: string)

  /** A comment embedded in its post. */
  datatype Comment = Comment(user: Id, text: string)

  datatype Post = Post(user: Id, text: string, img: string, likes: seq<Id>, comments: seq<Comment>)

  datatype Kind = Follow | Like

  datatype Notification = Notification(kind: Kind, from: Id, to: Id)

  datatype Db = Db(users: map<Id, User>, posts: map<Id, Post>, notifications: seq<Notification>)

  /** The array fields of a user that `$push` and `$pull` update. */
  datatype ListField = Followers | Following | LikedPosts

  function ListOf(u: User, f: ListField): seq<Id> {
    match f
    case Followers => u.followers
    case Following => u.following
    case LikedPosts => u.likedPosts
  }

  function WithList(u: User, f: ListField, xs: seq<Id>): User {
    match f
    case Followers => u.(followers := xs)
    case Following => u.(following := xs)
    case LikedPosts => u.(likedPosts := xs)
  }

  /** `$push`: append, even when the value is already there. */
  function Push(xs: seq<Id>, v: Id): (r: seq<Id>)
    ensures |r| == |xs| + 1 && r[..|xs|] == xs && r[|xs|] == v
    ensures forall x :: x in r <==> x in xs || x == v
  {
    xs + [v]
  }

  /** `$pull`: every element equal to `v` removed, the others kept with their counts and order. */
  function Pull(xs: seq<Id>, v: Id): (r: seq<Id>)
    ensures multiset(r) == multiset(xs)[v := 0]
    ensures v !in r
    ensures forall x :: x != v ==> (x in r <==> x in xs)
    ensures IsSubsequence(r, xs)
  {
    var keep := (x: Id) => x != v;
    PullCounts(xs, v, keep);
    FilterIsSubsequence(xs, keep);
    Filter(xs, keep)
  }

  lemma PullCounts(xs: seq<Id>, v: Id, keep: Id -> bool)
    requires forall x :: keep(x) == (x != v)
    ensures multiset(Filter(xs, keep)) == multiset(xs)[v := 0]
    ensures forall x :: x != v ==> (x in Filter(xs, keep) <==> x in xs)
  {
    forall x ensures multiset(Filter(xs, keep))[x] == multiset(xs)[v := 0][x] {
      FilterCounts(xs, keep, x);
    }
    forall x | x != v ensures x in Filter(xs, keep) <==> x in xs {
      FilterCounts(xs, keep, x);
      assert x in Filter(xs, keep) <==> multiset(Filter(xs, keep))[x] > 0;
      assert x in xs <==> multiset(xs)[x] > 0;
    }
  }

  /** A database write or a call to the media store, as a controller issues it. */
  datatype Effect =
    | UserPush(uid: Id, field: ListField, value: Id)     // User.updateOne / findByIdAndUpdate with $push
    | UserPull(uid: Id, field: ListField, value: Id)     // ... with $pull
    | UserSave(uid: Id, user: User)                      // user.save(), insert or replace
    | PostSave(pid: Id, post: Post)                      // post.save(), insert or replace
    | PostPullLike(pid: Id, liker: Id)                   // Post.updateOne with $pull on likes
    | PostDelete(pid: Id)                                // Post.findByIdAndDelete
    | NotificationSave(notification: Notification)      // notification.save()
    | MediaUpload(source: string)                        // cloudinary.uploader.upload
    | MediaDestroy(publicId: string)                     // cloudinary.uploader.destroy

  /** What one effect does to the store; media calls leave it as it is. */
  function Apply(db: Db, e: Effect): Db {
    match e
    case UserPush(uid, f, v) =>
      if uid in db.users
      then db.(users := db.users[uid := WithList(db.users[uid], f, Push(ListOf(db.users[uid], f), v))])
      else db
    case UserPull(uid, f, v) =>
      if uid in db.users
      then db.(users := db.users[uid := WithList(db.users[uid], f, Pull(ListOf(db.users[uid], f), v))])
      else db
    case UserSave(uid, u) => db.(users := db.users[uid := u])
    case PostSave(pid, p) => db.(posts := db.posts[pid := p])
    case PostPullLike(pid, liker) =>
      if pid in db.posts
      then db.(posts := db.posts[pid := db.posts[pid].(likes := Pull(db.posts[pid].likes, liker))])
      else db
    case PostDelete(pid) => db.(posts := db.posts - {pid})
    case NotificationSave(n) => db.(notifications := db.notifications + [n])
    case MediaUpload(_) => db
    case MediaDestroy(_) => db
  }

  /** The store after a request's effects, applied in order. */
  function Run(db: Db, effects: seq<Effect>): Db
    decreases |effects|
  {
    if |effects| == 0 then db else Run(Apply(db, effects[0]), effects[1..])
  }

  /** The notifications a list of effects saves, in order. */
  function Notified(effects: seq<Effect>): seq<Notification>
    decreases |effects|
  {
    if |effects| == 0 then []
    else if effects[0].NotificationSave? then [effects[0].notification] + Notified(effects[1..])
    else Notified(effects[1..])
  }

  /** Notifications are append-only: a request adds the ones it saves, in order, after the existing ones. */
  lemma {:induction false} RunNotifications(db: Db, effects: seq<Effect>)
    ensures Run(db, effects).notifications == db.notifications + Notified(effects)
    decreases |effects|
  {
    if |effects| > 0 {
      RunNotifications(Apply(db, effects[0]), effects[1..]);
    }
  }

  lemma RunOne(db: Db, a: Effect)
    ensures Run(db, [a]) == Apply(db, a)
  {
    assert [a][1..] == [];
  }

  lemma RunTwo(db: Db, a: Effect, b: Effect)
    ensures Run(db, [a, b]) == Apply(Apply(db, a), b)
  {
    assert [a, b][1..] == [b];
    RunOne(Apply(db, a), b);
  }

  lemma RunThree(db: Db, a: Effect, b: Effect, c: Effect)
    ensures Run(db, [a, b, c]) == Apply(Apply(Apply(db, a), b), c)
  {
    assert [a, b, c][1..] == [b, c];
    RunTwo(Apply(db, a), b, c);
  }

  /** The media calls of a request change no document. */
  lemma {:induction false} MediaCallsChangeNothing(db: Db, calls: seq<Effect>)
    requires forall e | e in calls :: e.MediaUpload? || e.MediaDestroy?
    ensures Run(db, calls) == db
    decreases |calls|
  {
    if |calls| > 0 {
      assert calls[0] in calls;
      assert forall e | e in calls[1..] :: e in calls;
      MediaCallsChangeNothing(db, calls[1..]);
    }
  }

  /** Running two effect lists one after the other is running their concatenation. */
  lemma {:induction false} RunAppend(db: Db, a: seq<Effect>, b: seq<Effect>)
    ensures Run(db, a + b) == Run(Run(db, a), b)
    decreases |a|
  {
    if |a| > 0 {
      assert (a + b)[1..] == a[1..] + b;
      RunAppend(Apply(db, a[0]), a[1..], b);
    } else {
      assert a + b == b;
    }
  }

  // -----------------------------------------------------------------------
  // Consistency between collections
  // -----------------------------------------------------------------------

  /** `following` and `followers` are inverse relations among existing users. */
  predicate FollowConsistent(db: Db) {
    forall a, b | a in db.users && b in db.users ::
      b in db.users[a].following <==> a in db.users[b].followers
  }

  /** A post's `likes` and its likers' `likedPosts` agree, among existing posts and users. */
  predicate LikesConsistent(db: Db) {
    forall pid, uid | pid in db.posts && uid in db.users ::
      uid in db.posts[pid].likes <==> pid in db.users[uid].likedPosts
  }

  predicate Distinct(xs: seq<Id>) {
    forall i, j | 0 <= i < j < |xs| :: xs[i] != xs[j]
  }

  /** The ids a list names. */
  function Members(xs: seq<Id>): set<Id> {
    set x | x in xs
  }

  /** A list without repeats has as many elements as it has members. */
  lemma {:induction false} DistinctSize(xs: seq<Id>)
    requires Distinct(xs)
    ensures |Members(xs)| == |xs|
    decreases |xs|
  {
    if |xs| > 0 {
      var rest := xs[1..];
      forall i, j | 0 <= i < j < |rest| ensures rest[i] != rest[j] {
        assert rest[i] == xs[i + 1] && rest[j] == xs[j + 1];
      }
      DistinctSize(rest);
      forall i | 0 <= i < |rest| ensures rest[i] != xs[0] {
        assert rest[i] == xs[i + 1];
      }
      assert xs[0] !in Members(rest);
      assert Members(xs) == Members(rest) + {xs[0]} by {
        assert forall x :: x in xs <==> x == xs[0] || x in rest;
      }
    } else {
      assert Members(xs) == {};
    }
  }

  /** No post lists the same liker twice. */
  predicate LikesDistinct(db: Db) {
    forall pid | pid in db.posts :: Distinct(db.posts[pid].likes)
  }

  /**
   * An id as a new ObjectId is: no document has it and no list names it.
   * Unlike a mere unused key, a fresh id is not the id of a deleted post
   * that some `likedPosts` still names.
   */
  predicate Fresh(db: Db, id: Id) {
    && id !in db.users && id !in db.posts
    && (forall u | u in db.users ::
          id !in db.users[u].following && id !in db.users[u].followers && id !in db.users[u].likedPosts)
    && (forall p | p in db.posts :: id !in db.posts[p].likes)
  }

  /** No two users share a username: what `findOne({ username })` needs to be unambiguous. */
  predicate UniqueUsernames(db: Db) {
    forall a, b | a in db.users && b in db.users && a != b ::
      db.users[a].username != db.users[b].username
  }

  /** No two users share a username or an email. */
  predicate UniqueIdentities(db: Db) {
    forall a, b | a in db.users && b in db.users && a != b ::
      db.users[a].username != db.users[b].username && db.users[a].email != db.users[b].email
  }

  // -----------------------------------------------------------------------
  // Queries
  // -----------------------------------------------------------------------

  /** `User.findOne({ username })` finds someone. */
  predicate UsernameTaken(db: Db, username: string) {
    exists id | id in db.users :: db.users[id].username == username
  }

  /** `User.findOne({ email })` finds someone. */
  predicate EmailTaken(db: Db, email: string) {
    exists id | id in db.users :: db.users[id].email == email
  }

  /** Every non-empty set of ids has a least element. */
  lemma {:induction false} LeastOf(s: set<Id>) returns (m: Id)
    requires s != {}
    ensures m in s && forall x | x in s :: m <= x
    decreases |s|
  {
    var y :| y in s;
    var rest := s - {y};
    if rest == {} {
      m := y;
      forall x | x in s ensures m <= x {
        assert x !in rest;
      }
    } else {
      var r := LeastOf(rest);
      m := if y < r then y else r;
      forall x | x in s ensures m <= x {
        if x != y { assert x in rest; }
      }
    }
  }

  lemma LeastExists(s: set<Id>)
    requires s != {}
    ensures exists m :: m in s && forall x | x in s :: m <= x
  {
    var m := LeastOf(s);
  }

  /** The smallest id of a non-empty set. */
  function Least(s: set<Id>): (m: Id)
    requires s != {}
    ensures m in s && forall x | x in s :: m <= x
  {
    LeastExists(s);
    var m :| m in s && forall x | x in s :: m <= x;
    m
  }

  /**
   * `User.findOne({ username })`. A map has no natural order, so when several
   * users share the name this picks the one with the least id.
   */
  function FindByUsername(db: Db, username: string): (r: Option<Id>)
    ensures r.None? <==> !UsernameTaken(db, username)
    ensures r.Some? ==> r.value in db.users && db.users[r.value].username == username
  {
    var matches := set id | id in db.users && db.users[id].username == username;
    if UsernameTaken(db, username) then
      var id :| id in db.users && db.users[id].username == username;
      assert id in matches;
      Some(Least(matches))
    else None
  }

  // -----------------------------------------------------------------------
  // Responses
  // -----------------------------------------------------------------------

  /** The user fields signup and login send back: the password is not among them. */
  datatype PublicUser = PublicUser(
    id: Id, fullName: string, username: string, email: string,
    followers: seq<Id>, following: seq<Id>, profileImg: string, coverImg: string)

  function PublicOf(id: Id, u: User): PublicUser {
    PublicUser(id, u.fullName, u.username, u.email, u.followers, u.following, u.profileImg, u.coverImg)
  }

  /** A user document together with its id, as a response lists it. */
  datatype UserDoc = UserDoc(id: Id, user: User)

  datatype Body =
    | Message(message: string)      // { message: ... }
    | Error(error: string)          // { error: ... }
    | Crash                         // { error: error.message } of a thrown exception
    | PostBody(pid: Id, post: Post)
    | Likes(likes: seq<Id>)
    | UserBody(doc: UserDoc)
    | Users(docs: seq<UserDoc>)
    | Profile(profile: PublicUser)

  datatype Reply = Reply(status: nat, body: Body)

  /** What a request answers and the effects it has, in order. */
  datatype Outcome = Outcome(reply: Reply, effects: seq<Effect>)

  /** A rejected request: it answers and does nothing else. */
  function Reject(status: nat, body: Body): (o: Outcome)
    ensures o.effects == [] && o.reply.status == status
  {
    Outcome(Reply(status, body), [])
  }
}
