# Twitter-clone backend: mutation semantics in Dafny

This project models the write side of a small social-network backend. It
holds three document collections: users, tweets, and follow edges. A GraphQL
schema exposes one mutation per write. The model covers:

- the field rules of the three Mongoose schemas: required paths, the unique
  indexes on username and email, the 280-character content cap, and the
  defaults for likes, retweets and timestamp;
- every mutation resolver, each as one method of a `Store` class that holds
  the three collections;
- the user model's pre-`deleteOne` hook. It removes a user's follow edges and
  tweets before the user document goes.

Files:

- `common.dfy`: the opaque document id, `Option`, `Result`, and the errors:
  a validation error listing the failed rules, a duplicate key, and "Tweet not
  found".
- `user.dfy`, `tweet.dfy`, `follow.dfy`: one module per model file. Each has
  the stored record, the document a constructor receives (every path
  optional), the validation `save()` runs, and the filters the cascade uses.
- `schema.dfy`: `Schema.Store` with the resolvers and the cascade.

Modelling conventions:

- Ids are an opaque type with equality only. A new document gets a fresh id,
  passed in as a parameter that is not yet a key of its collection.
- The creation time (`Date.now`) is a parameter.
- A lookup of an unknown id yields `None` (GraphQL null). `{ new: true }`
  returns the record after the update. A delete returns the removed record.
- Mongoose's `required` rejects an absent path. For a string path it also
  rejects "".
- `findByIdAndUpdate` runs no validators here, because no `runValidators`
  option is given. So changeUserEmail and changeUsername accept "", and
  editTweet accepts any content. The unique indexes live in the database, so
  a duplicate username or email is rejected on every write path.
- `save()` on a loaded document re-validates every path. So likeTweet fails
  with a validation error on a tweet whose content an edit has left empty or
  over 280 characters, and nothing changes.
- editTweet with no imageURL leaves the stored image unchanged, because
  Mongoose drops undefined keys from an update.
- The follow collection is a sequence in insertion order. "The first matching
  edge" of `findOneAndDelete` is the earliest inserted one.

`Store.Valid()` is the invariant every method keeps:

- the unique indexes hold;
- every like counter is at least 0;
- every retweet counter is still 0, because no resolver ever changes it.

Where the system's design description and its code differ, the model follows
the code:

- deleteUser does not cascade.
- retweet stores nothing.
- password is required as well as username and email.
- createTweet does not check that the owner exists.
- likeTweet is a plain read, increment and save, with no atomic increment.

## Model

| member | source | states |
|---|---|---|
| `UserModel.ValidateUser` | src/models/user.ts:18-23 | a user document is accepted iff username, email and password are present and non-empty; each missing one is reported; the stored user carries exactly the given fields |
| `UserModel.OptionalFieldsNotRequired` | src/models/user.ts:22-23 | leaving bio and profilePicture out never changes whether a user is accepted |
| `UserModel.WriteKeepsUnique` | src/models/user.ts:19-20 | writing a user under an id keeps usernames and emails unique iff no other user already holds its username or email |
| `UserModel.RemoveKeepsUnique` | src/models/user.ts:19-20 | deleting users never breaks uniqueness |
| `TweetModel.BuildTweet` | src/models/tweet.ts:13-21 | a tweet is stored iff it has an owner and content that is non-empty and at most 280 characters; each failed rule is reported; absent likes and retweets default to 0, an absent timestamp to the creation time; image and origin are kept as given |
| `TweetModel.OwnerRequired` | src/models/tweet.ts:14 | a tweet without userId is rejected with a missing-userId violation |
| `TweetModel.ContentCapBoundary` | src/models/tweet.ts:15 | 280 characters of content are accepted and 281 are rejected as too long |
| `TweetModel.ComposeDefaults` | src/models/tweet.ts:16-18 | the document createTweet builds is accepted iff its content is; it then gets zero counters, timestamp = now and no origin |
| `TweetModel.ResaveRoundTrip` | src/models/tweet.ts:15 | re-saving a stored tweet succeeds iff its content still meets the rules, and then stores it unchanged |
| `TweetModel.RetweetRejected` | src/graphql/schema.ts:171-176 | the document retweet builds always fails validation, with exactly the missing-content violation |
| `TweetModel.TweetsNotOwnedBy` | src/models/user.ts:37 | after the tweet pass of the cascade, the tweets left are exactly those of other owners, each unchanged |
| `TweetModel.TweetsNotOwnedByIdempotent` | src/models/user.ts:37 | a second tweet pass removes nothing more |
| `FollowModel.ValidateFollow` | src/models/follow.ts:8-11 | an edge is stored iff both references are present; each missing one is reported; the stored edge carries exactly those two ids |
| `FollowModel.SelfFollowValid` | src/models/follow.ts:8-11 | an edge from a user to that same user is valid |
| `FollowModel.EdgesNotTouchingMembers` | src/models/user.ts:34 | an edge survives the follow pass of the cascade iff it was stored and names the user at neither end |
| `FollowModel.EdgesNotTouchingIdempotent` | src/models/user.ts:34 | a second follow pass removes nothing more |
| `FollowModel.DeleteEdgesTouching` | src/models/user.ts:34 | the one-pass `deleteMany` loop leaves exactly the filtered sequence of edges, in order |
| `FollowModel.FirstMatch` | src/graphql/schema.ts:209-212 | the result is absent iff no edge matches the pair; otherwise it is the position of a matching edge with no matching edge before it |
| `FollowModel.FindFirstMatch` | src/graphql/schema.ts:209-212 | the scan behind `findOneAndDelete` returns the first matching position |
| `FollowModel.RemoveAt` | src/graphql/schema.ts:209-212 | deleting one position keeps every other edge in order and removes exactly one occurrence of that edge |
| `Schema.Store.AddUser` | src/graphql/schema.ts:60-68 | succeeds iff the three required strings are non-empty and neither the username nor the email is taken; it then stores exactly the given user under the fresh id; on failure nothing changes; tweets and follows never change |
| `Schema.Store.ChangeUserEmail` | src/graphql/schema.ts:77-79 | unknown id: null and no change; an email another user holds: duplicate-key error and no change; otherwise only that user's email is overwritten and the updated user is returned |
| `Schema.Store.ChangeUsername` | src/graphql/schema.ts:87-89 | as ChangeUserEmail, for the username |
| `Schema.Store.ChangeUserPassword` | src/graphql/schema.ts:97-100 | unknown id: null and no change; otherwise only that user's password is overwritten and the updated user is returned |
| `Schema.Store.ChangeUserBio` | src/graphql/schema.ts:108-110 | unknown id: null and no change; otherwise only that user's bio is overwritten and the updated user is returned |
| `Schema.Store.DeleteUser` | src/graphql/schema.ts:117-119 | removes only that user and returns it, or null; the user's tweets and edges are left in place because the query delete does not fire the hook |
| `Schema.Store.DeleteUserDocument` | src/models/user.ts:30-38 | afterwards the user is gone, no edge names it, and no tweet is owned by it; every other user, every edge not naming it, and every other owner's tweet is unchanged |
| `Schema.Store.InsertTweet` | src/graphql/schema.ts:134 | a new tweet document is stored under the fresh id exactly when it validates |
| `Schema.Store.CreateTweet` | src/graphql/schema.ts:128-135 | succeeds iff the content is non-empty and at most 280 characters, whether or not the owner exists; stores the given owner, content and image with zero counters, timestamp = now and no origin |
| `Schema.Store.EditTweet` | src/graphql/schema.ts:144-149 | unknown id: null and no change; otherwise content is overwritten without any length check, the image is overwritten only when one is given, and owner, timestamp, counters and origin are unchanged |
| `Schema.Store.LikeTweet` | src/graphql/schema.ts:156-163 | unknown id: "Tweet not found" and no change; otherwise likes rises by exactly 1 and nothing else changes, unless re-validation of the tweet's content fails, in which case nothing changes |
| `Schema.Store.Retweet` | src/graphql/schema.ts:171-177 | always fails with a missing-content error and changes nothing, including the origin's retweet counter |
| `Schema.Store.DeleteTweet` | src/graphql/schema.ts:184-186 | removes only that tweet and returns it, or null; tweets whose origin is that tweet are unchanged |
| `Schema.Store.FollowUser` | src/graphql/schema.ts:194-200 | appends exactly the edge follower -> following, with no existence, duplicate or self-follow check |
| `Schema.Store.UnfollowUser` | src/graphql/schema.ts:208-213 | returns null and changes nothing iff no edge matches the pair; otherwise removes exactly the first matching edge and returns it |
| `Schema.DeleteUserLeavesEdge` | src/graphql/schema.ts:118 | after deleteUser of a followed user, the follow edge naming that user is still stored |
| `Schema.Store.DeleteUserWithCascade` | src/models/user.ts:30-38 | the corrected deleteUser: returns the removed user or null; on a hit, the user's edges and tweets go with it and everything else stays; on a miss nothing changes |
| `Schema.DeleteUserWithCascadeClearsEdge` | src/models/user.ts:34 | with the corrected resolver, the same store is left with no follow edge |
| `Schema.CascadeIdempotent` | src/models/user.ts:34-37 | running the cascade a second time on the same id changes nothing further |

## Left out

- HTTP and GraphQL wiring, the database connection and the port binding
  (src/server.ts). These are transport and bootstrap.
- The GraphQL object types, the empty root query and the non-null argument
  wrappers. Required arguments are plain parameters.
- Concurrency. likeTweet's read, increment and save can lose updates when
  requests interleave. The model runs one request at a time, so a like adds
  exactly 1.
- Promises and async. Each resolver is one atomic step. A store failure part
  way through the cascade, which would leave its later passes undone, is not
  modelled.
- ObjectId generation and the cast error raised for an id string that is not
  a valid ObjectId. Ids are opaque.
- The `createdAt`/`updatedAt` timestamps of the user schema.
- Password hashing. The code stores passwords as given, and so does the model.
- Which unique index a duplicate-key error names. The model reports only that
  one was violated.
- BuildTweet: content length is counted in Unicode characters. JavaScript's
  `maxlength` counts UTF-16 code units, so content with characters outside the
  Basic Multilingual Plane is measured differently.
- EditTweet: an imageURL passed explicitly as null clears the stored image.
  The model's parameter is either a string or absent, and absent keeps the
  image.
- The test files only stub the model methods. They exercise no repository
  logic.

## Findings

| source | as written | input that shows it | evidently intended | confidence | as-written member | corrected member |
|---|---|---|---|---|---|---|
| src/graphql/schema.ts:118 | deleteUser uses the query delete `findByIdAndDelete`. The cascade hook is registered for document deletes only (src/models/user.ts:30), so it never fires. | user u with one follower v; call deleteUser(u). The edge v -> u survives and names a user that no longer exists. | deleting a user also removes the edges and tweets that belong to that user, as the hook is written to do | high (not executed) | `Schema.DeleteUserLeavesEdge` | `Schema.Store.DeleteUserWithCascade` |
