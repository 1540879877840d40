# Engagement engine of a social-media backend, in Dafny

This project models the request handlers of a small social-media backend
(Express controllers over MongoDB). The handlers covered are: posting,
deleting, commenting and liking; following users, getting follow suggestions
and updating one's profile; and signing up and logging in. It proves the
rules these handlers keep.

## How the model is built

- **Store.** The store is an immutable value, `Store.Db`. It holds a map of
  user documents, a map of post documents, and the append-only sequence of
  notifications. Users and posts are keyed by one abstract id type.
- **Handlers.** Each handler that writes is a pure function from the store
  and the request to an `Outcome`. An outcome is the reply (status and body) plus
  the list of effects the request has, in the order the controller awaits
  them. Effects are database writes and media-store calls.
  `getSuggestedUsers` writes nothing, so `UserController.SuggestedUsers`
  is a method that answers with a `Reply` alone.
- **State after a request.** The store after the request is
  `Store.Run(db, effects)`. So "nothing changes on error" is "the effect
  list is empty" (`Store.Reject`). Write order is a statement about the
  effect list.
- **MongoDB operators.** `$push` appends, duplicates included
  (`Store.Push`). `$pull` removes every equal element (`Store.Pull`).
  Updating a document that does not exist changes nothing.
- **Media store.** An upload's answer (the URL) is a parameter of the
  handler. `destroy` is an effect that leaves the store unchanged. The id
  handed to `destroy` is computed as the source computes it
  (`Media.MediaId`, `url.split("/").pop().split(".")[0]`).
- **Password hashing.** bcrypt is replaced by an injective stand-in
  (`Credential.Hash`) and its comparison (`Credential.Compare`).
- **Fresh ids.** Ids given to new documents are parameters. An id already in
  use stands for the duplicate-key error `save` would throw, and so for the
  handler's 500 reply. The consistency lemmas for creating posts and
  signing up take a `Store.Fresh` id, as a new ObjectId is: no document has
  it and no list names it.
- **Request fields.** An absent field is the empty string. Both are falsy in
  JavaScript, and most uses of a field are truthiness tests. Where an
  absent field reaches a query, a length or a hash comparison instead, the
  source can behave differently; those cases are listed under "Left out".
- **The e-mail regular expression.** The signup check
  `^[^\s@]+@[^\s@]+\.[^\s@]+$` is `Email.ValidEmail`. It is proved equal to
  a position-by-position reading of the expression.

Modules:

- `Js` (js.dfy): the JavaScript built-ins the handlers use.
- `Store` (store.dfy): documents, effects and the consistency predicates.
- `Media` (media.dfy): media ids.
- `Credential` (credential.dfy): hashing.
- `Email` (email.dfy): the e-mail check.
- `PostController` (posts.dfy), `UserController` (users.dfy) and
  `AuthController` (auth.dfy): the handlers.

The model follows the code in two places where a set-based reading would
differ:

- Follow and like lists are arrays updated with `$push`, not sets. A `$push`
  onto a list that already holds the value duplicates it.
- A taken username or e-mail at signup is answered with 400, not with a
  distinct conflict status.

## Model

| member | source | states |
|---|---|---|
| PostController.CreatePost | post.controller.js:7-49 | A missing author gives 404 "User not found!" before the content check. A post with neither text nor image gives 400. Both write nothing. The reply is 201 exactly when the author exists, some content is given and the new id is free. |
| PostController.CreatePostAddsOnePost | post.controller.js:26-43 | A created post is the only change. Its author is the actor and its text is as given. Its image is the uploaded URL when an image came with it, else empty. It starts with no likes and no comments. Existing posts, users and notifications are unchanged, and the upload precedes the save. |
| PostController.CreatePostKeepsConsistency | post.controller.js:33-40 | Creating a post under a fresh id keeps likes and `likedPosts` in agreement, follow lists inverse and likes free of repeats. |
| PostController.DeletePost | post.controller.js:51-84 | A missing post gives 404 and another user's post gives 401. Both write nothing. Only the author gets 200. |
| PostController.DeletePostRemovesOnlyThatPost | post.controller.js:66-77 | The author's delete removes exactly that post. Nothing cascades: users, including `likedPosts` naming the post, and notifications are unchanged. When the post has an image, its media id is destroyed first. |
| PostController.CreateThenDeleteRestores | post.controller.js:27-74 | Deleting a post right after creating it gives back the store exactly as it was. When the post came with an image, the id destroyed is the one cut from the uploaded URL. |
| PostController.DeletePostKeepsConsistency | post.controller.js:73-74 | Deleting a post keeps likes and `likedPosts` in agreement, keeps follow lists inverse, and keeps likes free of repeats. |
| PostController.CommentOnPost | post.controller.js:86-125 | Empty text gives 400 before the post lookup, even for a missing post. A missing post gives 404. Neither writes anything. Otherwise the reply is 200. |
| PostController.CommentAppends | post.controller.js:106-116 | The comment `{actor, text}` is appended to the post's comments. The post's other fields, other posts, users and notifications are unchanged, and the reply is the updated post. |
| PostController.CommentKeepsConsistency | post.controller.js:106-113 | A comment, accepted or refused, keeps like agreement, repeat-free likes and the follow inverse relation. |
| PostController.CommentsKeepOrder | post.controller.js:107-113 | Two comments in a row end the comment list in the order they were made, after all the earlier ones. |
| PostController.LikeUnlikePost | post.controller.js:127-173 | A missing post gives 404. An actor already in the likes gets the unlike acknowledgement. Any other actor gets 200 and a likes list that contains the actor. |
| PostController.LikeAddsBothSides | post.controller.js:148-163 | A like appends the actor to the post's likes and the post to the actor's `likedPosts`. The effect order is `likedPosts` push, post save, then one notification from the actor to the author, self-likes included. The reply is the new likes list. |
| PostController.UnlikeRemovesBothSides | post.controller.js:140-147 | An unlike removes every occurrence of the actor from the likes and of the post from `likedPosts`, post first. No notification is sent. |
| PostController.LikeKeepsLikes | post.controller.js:148-152 | After a like, a user is in a post's likes exactly when the post is in the user's `likedPosts`, provided that held before. Likes stay free of repeats. |
| PostController.UnlikeKeepsLikes | post.controller.js:140-143 | After an unlike, likes and `likedPosts` still agree if they agreed before. Likes stay free of repeats. |
| PostController.LikeLeavesFollows | post.controller.js:138-163 | Liking and unliking change no user's `following` or `followers`. |
| PostController.LikeKeepsConsistency | post.controller.js:138-163 | A like or an unlike preserves like agreement, repeat-free likes and the follow inverse relation. |
| PostController.PullKeepsDistinct | post.controller.js:142 | `$pull` on a repeat-free list leaves it repeat-free. |
| PostController.LikeTwiceRestores | post.controller.js:138-163 | Toggling a like twice restores whether the actor likes the post. When likes agreed before, it also restores whether the post is in the actor's `likedPosts`. |
| UserController.FollowUnfollowUser | user.controller.js:25-70 | Self-follow gives 400 before the check that both users exist. A missing actor or target then gives 404. Neither writes anything. Otherwise the reply is 200: "unfollowed" exactly when the actor already follows the target, "followed" otherwise. |
| UserController.FollowAddsBothSides | user.controller.js:48-63 | A follow appends the actor to the target's followers, then the target to the actor's following, then exactly one follow notification. Posts and all other users are unchanged. |
| UserController.UnfollowRemovesBothSides | user.controller.js:41-47 | An unfollow removes every occurrence of the actor from the target's followers, then of the target from the actor's following. No notification is sent. |
| UserController.FollowPerUser | user.controller.js:50-51 | Per user, a follow grows only the actor's `following` and the target's `followers`. All other users, every `likedPosts` and all posts are unchanged. |
| UserController.UnfollowPerUser | user.controller.js:43-44 | Per user, an unfollow shrinks only the actor's `following` and the target's `followers`. Everything else is unchanged. |
| UserController.FollowKeepsFollowConsistent | user.controller.js:48-51 | A follow keeps `following` and `followers` inverse relations. |
| UserController.UnfollowKeepsFollowConsistent | user.controller.js:41-44 | An unfollow keeps `following` and `followers` inverse relations. |
| UserController.FollowKeepsConsistency | user.controller.js:39-64 | Every toggle, including the rejected ones, keeps the follow inverse relation and like agreement. |
| UserController.FollowTwiceRestores | user.controller.js:39-51 | Toggling twice restores whether the actor follows the target. When the lists agreed before, it also restores whether the target counts the actor as a follower. Users other than the two are unchanged. |
| UserController.Sample | user.controller.js:82-89 | The aggregation's sample holds at most 10 users, every one existing and none the caller, for any draw. |
| UserController.SampleOfShuffle | user.controller.js:82-89 | When the draw visits every user other than the caller exactly once, as `$sample` does, the sample holds min(10, N) distinct users, N being the number of users other than the caller. |
| UserController.Suggested | user.controller.js:91-95 | The suggestions are at most 4 and keep the sample's order as a subsequence of it. Each is an existing user other than the caller, not in the caller's `following`. When fewer than 4 come back, every sampled user the caller does not follow is among them. |
| UserController.SuggestedAreFirst | user.controller.js:92-95 | For a sample without repeats, the suggestions are the first unfollowed users in it: an unfollowed sampled user that comes before a suggested one is suggested too. |
| UserController.SuggestedUsers | user.controller.js:73-108 | For a caller without a document, a non-empty sample gives 500 (the filter reads `.following` of null) and an empty sample gives 200 with an empty list. Otherwise the loop's result is `Suggested`, each user with its password nulled. |
| UserController.CheckPassword | user.controller.js:126-148 | Exactly one password given: refused. Current password not matching: refused. New password shorter than 6: refused. A change is accepted exactly when the current password matches and the new one has at least 6 characters. The stored digest is then the new password's. A null stored digest with both passwords given throws. |
| UserController.UpdateUser | user.controller.js:111-201 | A missing user gives 404. A refused password check gives 400 with its reason, and a throwing one gives 500. All of these come before any media call or save. A 200 reply never carries a password. |
| UserController.UpdateUserSaves | user.controller.js:178-194 | An accepted update replaces only the actor's document. The reply is the saved document with its password nulled. Media calls come first and the save last. |
| UserController.UpdateUserMerges | user.controller.js:150-188 | Each text field and image takes the new value when it is non-empty and keeps the old one otherwise. The password changes only with an accepted change. Follow and like lists are untouched. An old profile image's media id is destroyed before the new image is uploaded. |
| UserController.UpdateCallsOrder | user.controller.js:150-175 | For the profile image and then the cover image: a new image destroys the old one's media id, when there is an old one, and is then uploaded. An image not given causes no media call. |
| UserController.UpdateUserKeepsConsistency | user.controller.js:150-188 | Every update, accepted or refused, keeps like agreement, repeat-free likes and the follow inverse relation. |
| UserController.ChangedPasswordTakesEffect | user.controller.js:132-147 | After an accepted change, the stored digest is the new password's. It accepts the new password and no longer accepts a different old one, so a later update naming the new password as current passes the match check. |
| UserController.EmptyUpdateChangesNothing | user.controller.js:150-188 | An update with every field empty makes no media call, saves the document unchanged, and leaves the store as it was. |
| AuthController.Signup | auth.controller.js:8-81 | The checks run in order (e-mail format, taken username, taken e-mail, password under 6 characters), each a 400 with its own message and no write. The reply is 201 exactly when all pass and the id is free. It then saves one user and answers with fields that exclude the password. |
| AuthController.SignupAddsOneUser | auth.controller.js:39-59 | An accepted signup adds exactly one user under the new id, with empty follow and like lists. The stored digest is not the password but accepts it. |
| AuthController.SignupPreservesUniqueness | auth.controller.js:23-33 | If no two users shared a username or e-mail before a signup, none do after it. |
| AuthController.SignupKeepsConsistency | auth.controller.js:46-59 | A signup under a fresh id keeps like agreement, repeat-free likes and the follow inverse relation. |
| AuthController.Login | auth.controller.js:85-114 | An unknown username and a wrong password get the same 400. Success requires a user with that username whose stored digest is the password's, and answers with that user's public fields. Login writes nothing. |
| AuthController.LoginIffCredentials | auth.controller.js:88-94 | With unique usernames (e-mails may repeat), login succeeds exactly when the named user's digest accepts the password. |
| AuthController.LoginAfterSignup | auth.controller.js:88-94 | After a signup, logging in with the same username and password succeeds and shows the new user. Any other password is refused. |
| Email.ValidEmailMatchesPattern | auth.controller.js:14-21 | The split-based check accepts exactly the strings with one `@` after at least one character, a `.` at least two characters after it and at least one character before the end, and no other `@` or whitespace. |
| Media.MediaIdOfSegment | post.controller.js:69 | The media id is the part of the URL's last `/`-segment before its first `.`. |
| Media.MediaIdShape | user.controller.js:155 | The media id is a prefix of the last segment and contains neither `/` nor `.`. It is the whole segment when the segment has no dot, and otherwise stops exactly at the first dot. |
| Media.MediaIdOfUploadUrl | user.controller.js:169 | For a URL of the form `<dir>/<name>.<ext>` with no `/` or `.` in the name, the media id is the name. |
| Credential.CompareOwnDigest | auth.controller.js:41-43 | A digest accepts the password it was made from and no other. |
| Credential.CompareRejectsEmpty | auth.controller.js:90 | The fallback empty digest accepts no password. |
| Store.Pull | post.controller.js:142-143 | `$pull` removes every occurrence of the value and keeps every other element with its count and order. |
| Store.Push | user.controller.js:50-51 | `$push` appends the value after the unchanged list. |
| Store.RunNotifications | post.controller.js:154-160 | Notifications are append-only. A request adds the ones it saves, in order, after the existing ones. |
| Store.FindByUsername | auth.controller.js:24-27 | A lookup by username finds a user exactly when one has that username, and the user it finds has it. |
| Js.SplitLast | post.controller.js:69 | `split(sep).pop()` is the text after the last separator. |
| Js.SplitHead | post.controller.js:69 | `split(sep)[0]` is the text before the first separator. |
| Js.JoinSplit | user.controller.js:155 | Joining the pieces of a split gives back the string. |
| Js.SplitJoin | auth.controller.js:14-21 | Splitting a join of separator-free pieces gives back the pieces. |
| Js.FilterIsSubsequence | user.controller.js:92 | `filter` keeps the kept elements in their original order. |
| Js.FilterCounts | post.controller.js:142-143 | A filter keeps every occurrence of a kept value and none of a dropped one; `$pull`'s counts (`Store.Pull`) rest on it. |
| Js.Take | user.controller.js:95 | `slice(0, n)` is a prefix of length `n`, or the whole list when that is shorter. |

## Left out

- Feed and profile reads are not modelled: `getAllPosts`, `getLikedPosts`, `getFollowingPosts`, `getUserPosts`, `getUserProfile` and `getMe`. Their sorting, population and projection are done by the database.
- `logout` and the session cookie that signup and login issue: cookie and response I/O.
- Media-store internals and network failures: an upload's URL is a parameter and `destroy`'s result is ignored.
- bcrypt salting and digest format: `Credential.Hash` is an injective stand-in.
- `Credential.CompareOwnDigest`, `AuthController.LoginAfterSignup`, `UserController.ChangedPasswordTakesEffect`: their "no other password is accepted" conclusions rely on the stand-in being injective. Real bcrypt reads only the first 72 bytes of a password, so two passwords sharing those 72 bytes both pass `compare`; the model does not capture that truncation.
- Concurrency and crashes between the paired writes: each request is one sequential transition. Stores where only the first of two writes landed are not modelled.
- Timestamps and the notification read flag are not modelled.
- A request field that is absent is modelled as empty. The cases where the source then behaves differently are not modelled:
  - `password.length` in signup throws and answers 500.
  - `bcrypt.compare` in login throws on an undefined password.
  - An absent `username` in signup or login reaches `User.findOne({ username: undefined })`. Depending on how the driver treats `undefined`, that filter matches any user or only users without a username, where the model looks for the username `""`. So signup may answer 400 "Username already taken" where the model accepts and stores `""`. Login may compare the password against some user's digest and answer 200 as that user, where the model answers 400.
  - `fullName` in signup and `text` in createPost, when absent, leave the field unset in the stored document, where the model stores `""`.
- Signup's `else` branch for a falsy new document ("Invalid user data !!") is unreachable, because a constructed document is always truthy.
- A malformed id string makes `findById` throw, answering 500. Ids here are abstract and always well formed. In `commentOnPost` the text check comes before `findById`, so there the 400 for empty text would still come first.
- The user schema (models/user.model.js) is not part of this model. Unique indexes, required fields and schema defaults beyond empty lists and strings are unknown. So `updateUser` may store a username or e-mail another user has, exactly as its code does not check.
- Password length is counted in characters. JavaScript counts UTF-16 code units, which differ for characters outside the Basic Multilingual Plane.
- `Store.FindByUsername`: when several users share a username, `findOne` returns whichever the database meets first. The model picks the least id, which agrees whenever usernames are unique.
- `UserController.Sample`: `$sample`'s randomness is the parameter `draw`, which may be any sequence of ids, so the model also covers samples that omit or repeat users. The suggestion properties hold for every draw. `UserController.SampleOfShuffle` states the min(10, N) size only for draws that visit each eligible user once.
- `PostController.LikeTwiceRestores`, `UserController.FollowTwiceRestores`: toggling twice restores membership, not list positions. An element pushed back goes to the end.
- Id casting between strings and ObjectIds in `includes` and in comparisons: ids are one abstract type.
