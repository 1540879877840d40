/**
 * The auth controller: signing up and logging in. Issuing the session
 * cookie is left out; a successful request answers with the user's public
 * fields.
 */
module AuthController {
  import opened Js
  import opened Store
  import opened Credential
  import opened Email

  /** The fields `signup` reads from the request body; absent ones are empty. */
  datatype SignupForm = SignupForm(fullName: string, username: string, email: string, password: string)

  /** The document `new User({...})` builds: schema defaults, hashed password. */
  function NewUser(form: SignupForm): User {
    User(form.username, form.fullName, form.email, Some(Hash(form.password)),
         [], [], [], "", "", "", "")
  }

  /** Every check `signup` makes before it saves. */
  predicate SignupAccepted(db: Db, form: SignupForm) {
    && ValidEmail(form.email)
    && !UsernameTaken(db, form.username)
    && !EmailTaken(db, form.email)
    && |form.password| >= 6
  }

  /**
   * `signup`: the e-mail format, then a taken username, then a taken e-mail,
   * then the password length, each answered with 400. `newId` is the id the
   * new document gets; saving over an existing one fails like a duplicate
   * key and lands in the catch block.
   */
  function Signup(db: Db, form: SignupForm, newId: Id): (o: Outcome)
    ensures !ValidEmail(form.email) ==> o == Reject(400, Error("Invalid Email Format"))
    ensures ValidEmail(form.email) && UsernameTaken(db, form.username) ==>
              o == Reject(400, Error("Username already taken"))
    ensures (ValidEmail(form.email) && !UsernameTaken(db, form.username) && EmailTaken(db, form.email)) ==>
              o == Reject(400, Error("Email already taken"))
    ensures (ValidEmail(form.email) && !UsernameTaken(db, form.username) && !EmailTaken(db, form.email)
              && |form.password| < 6) ==>
              o == Reject(400, Error("Password must be atleast 6 characters long"))
    ensures SignupAccepted(db, form) && newId in db.users ==> o == Reject(500, Error("Internal Server Error!!"))
    ensures o.reply.status == 201 <==> SignupAccepted(db, form) && newId !in db.users
    ensures o.reply.status == 201 ==>
              && o.effects == [UserSave(newId, NewUser(form))]
              && o.reply.body == Profile(PublicOf(newId, NewUser(form)))
    ensures o.reply.status != 201 ==> o.effects == []
  {
    if !ValidEmail(form.email) then Reject(400, Error("Invalid Email Format"))
    else if UsernameTaken(db, form.username) then Reject(400, Error("Username already taken"))
    else if EmailTaken(db, form.email) then Reject(400, Error("Email already taken"))
    else if |form.password| < 6 then Reject(400, Error("Password must be atleast 6 characters long"))
    else if newId in db.users then Reject(500, Error("Internal Server Error!!"))
    else
      var user := NewUser(form);
      Outcome(Reply(201, Profile(PublicOf(newId, user))), [UserSave(newId, user)])
  }

  /**
   * An accepted signup adds exactly one user, under the new id, with no
   * followers, follows or likes, and stores a digest that accepts the chosen
   * password rather than the password itself.
   */
  lemma SignupAddsOneUser(db: Db, form: SignupForm, newId: Id)
    requires Signup(db, form, newId).reply.status == 201
    ensures var after := Run(db, Signup(db, form, newId).effects);
      && after == db.(users := db.users[newId := NewUser(form)])
      && newId !in db.users && after.users.Keys == db.users.Keys + {newId}
      && after.users[newId].password.Some?
      && after.users[newId].password.value != form.password
      && Compare(form.password, after.users[newId].password.value)
      && after.users[newId].followers == [] && after.users[newId].following == []
      && after.users[newId].likedPosts == []
  {
    RunOne(db, UserSave(newId, NewUser(form)));
    CompareOwnDigest(form.password, form.password);
  }

  /** Signup never lets two users share a username or an e-mail address. */
  lemma SignupPreservesUniqueness(db: Db, form: SignupForm, newId: Id)
    requires UniqueIdentities(db)
    ensures UniqueIdentities(Run(db, Signup(db, form, newId).effects))
  {
    if Signup(db, form, newId).reply.status == 201 {
      SignupAddsOneUser(db, form, newId);
      var after := Run(db, Signup(db, form, newId).effects);
      forall a, b | a in after.users && b in after.users && a != b
        ensures after.users[a].username != after.users[b].username
        ensures after.users[a].email != after.users[b].email
      {
        if a == newId {
          assert b in db.users;
        } else if b == newId {
          assert a in db.users;
        }
      }
    }
  }

  /**
   * A signup under a fresh id keeps follow lists inverse, likes and
   * `likedPosts` in agreement, and likes free of repeats: the new user
   * follows, is followed by and likes nothing, and nothing names it.
   */
  lemma SignupKeepsConsistency(db: Db, form: SignupForm, newId: Id)
    requires LikesConsistent(db) && FollowConsistent(db) && LikesDistinct(db)
    requires Fresh(db, newId)
    ensures var after := Run(db, Signup(db, form, newId).effects);
      LikesConsistent(after) && FollowConsistent(after) && LikesDistinct(after)
  {
    if Signup(db, form, newId).reply.status == 201 {
      SignupAddsOneUser(db, form, newId);
    }
  }

  /** The digest `login` compares against: the stored one, or "" when there is none. */
  function StoredDigest(db: Db, found: Option<Id>): string {
    if found.Some? && found.value in db.users && db.users[found.value].password.Some?
    then Or(db.users[found.value].password.value, "")
    else ""
  }

  /**
   * `login`: one answer for an unknown username and a wrong password, so the
   * reply does not reveal which it was; on success the public fields of the
   * user found. Login writes nothing.
   */
  function Login(db: Db, username: string, password: string): (o: Outcome)
    ensures o.effects == []
    ensures o.reply.status == 200 || o.reply == Reply(400, Error("Invalid Username or Password"))
    ensures !UsernameTaken(db, username) ==> o.reply.status == 400
    ensures o.reply.status == 200 ==>
      exists id | id in db.users ::
        && db.users[id].username == username
        && db.users[id].password == Some(Hash(password))
        && o.reply.body == Profile(PublicOf(id, db.users[id]))
  {
    var found := FindByUsername(db, username);
    var ok := Compare(password, StoredDigest(db, found));
    if found.None? || !ok then Reject(400, Error("Invalid Username or Password"))
    else
      var id := found.value;
      assert db.users[id].password == Some(Hash(password)) by {
        CompareRejectsEmpty(password);
      }
      Outcome(Reply(200, Profile(PublicOf(id, db.users[id]))), [])
  }

  /**
   * With usernames unique, login succeeds exactly when some user has that
   * username and a digest of that password, and then answers with that
   * user's public fields.
   */
  lemma LoginIffCredentials(db: Db, username: string, password: string, id: Id)
    requires UniqueUsernames(db)
    requires id in db.users && db.users[id].username == username
    ensures Login(db, username, password).reply.status == 200 <==> db.users[id].password == Some(Hash(password))
    ensures Login(db, username, password).reply.status == 200 ==>
              Login(db, username, password).reply.body == Profile(PublicOf(id, db.users[id]))
  {
    var found := FindByUsername(db, username);
    assert found == Some(id);
    CompareRejectsEmpty(password);
  }

  /**
   * Signing up and then logging in with the same username and password
   * succeeds and shows the new user; any other password is refused.
   */
  lemma LoginAfterSignup(db: Db, form: SignupForm, newId: Id, other: string)
    requires Signup(db, form, newId).reply.status == 201
    requires other != form.password
    ensures var after := Run(db, Signup(db, form, newId).effects);
      && Login(after, form.username, form.password).reply == Reply(200, Profile(PublicOf(newId, NewUser(form))))
      && Login(after, form.username, other).reply == Reply(400, Error("Invalid Username or Password"))
  {
    SignupAddsOneUser(db, form, newId);
    var after := Run(db, Signup(db, form, newId).effects);
    assert FindByUsername(after, form.username) == Some(newId) by {
      var found := FindByUsername(after, form.username);
      assert UsernameTaken(after, form.username) by {
        assert after.users[newId].username == form.username;
      }
      assert forall u | u in db.users :: db.users[u].username != form.username;
      assert forall u | u in after.users && u != newId :: u in db.users && after.users[u] == db.users[u];
    }
    CompareOwnDigest(form.password, other);
  }
}
